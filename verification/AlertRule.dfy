/**
 The rule that turns a detection, the conditions and what a zone protects into
 an alert level (backend/src/evaluation/alert-decision.ts, alert-level.enum.ts).
 */
module AlertRule {
  import opened Rating
  import opened Text
  import opened Wrappers

  datatype AlertLevel =
    | Info
    | Elevated
    | CriticalPhosphorusFire
    | CriticalWildfire
    | CriticalOrdnanceHeat
    | CriticalThermalAnomaly
    | CriticalSmouldering
    | CriticalSensorHeat

  /** The text stored in `validated_events.alert_level` and sent in payloads. */
  function LevelName(level: AlertLevel): string {
    match level
    case Info => "INFO"
    case Elevated => "ELEVATED"
    case CriticalPhosphorusFire => "CRITICAL_PHOSPHORUS_FIRE"
    case CriticalWildfire => "CRITICAL_WILDFIRE"
    case CriticalOrdnanceHeat => "CRITICAL_ORDNANCE_HEAT"
    case CriticalThermalAnomaly => "CRITICAL_THERMAL_ANOMALY"
    case CriticalSmouldering => "CRITICAL_SMOULDERING"
    case CriticalSensorHeat => "CRITICAL_SENSOR_HEAT"
  }

  /** The levels that page a responder. */
  predicate IsCritical(level: AlertLevel) {
    !level.Info? && !level.Elevated?
  }

  /** `startsWith('CRITICAL_')` in the services and `LIKE 'CRITICAL%'` in the
      queries select the same levels. */
  lemma CriticalIsAPrefix(level: AlertLevel)
    ensures IsCritical(level) <==> "CRITICAL_" <= LevelName(level)
    ensures IsCritical(level) <==> "CRITICAL" <= LevelName(level)
  {
    assert LevelName(Info)[0] == 'I' && LevelName(Elevated)[0] == 'E';
    assert "CRITICAL"[0] == 'C' && "CRITICAL_"[0] == 'C';
  }

  const IGNITION_TEMPERATURE_C: real := 30.0
  const CRITICAL_SOIL_MOISTURE_PCT: real := 20.0
  const SMOULDERING_MAX_FRP_MW: real := 5.0
  const CREDIBLE_PERCENTAGE: real := 30.0

  datatype HazardProfile = HazardProfile(
    criticalLevel: AlertLevel,
    requiresIgnitionWeather: bool,
    tracksIgnitionWindow: bool,
    requiresCredibleDetection: bool)

  /** `HAZARD_PROFILES[hazardType] ?? HAZARD_PROFILES['generic']`. */
  function ProfileFor(hazardType: string): HazardProfile {
    if hazardType == "white_phosphorus" then
      HazardProfile(CriticalPhosphorusFire, true, true, false)
    else if hazardType == "white_phosphorus_forest" then
      HazardProfile(CriticalWildfire, false, true, true)
    else if hazardType == "wildfire" then
      HazardProfile(CriticalWildfire, false, false, true)
    else if hazardType == "ammunition_depot" then
      HazardProfile(CriticalOrdnanceHeat, false, false, false)
    else
      HazardProfile(CriticalThermalAnomaly, false, false, true)
  }

  datatype Conditions = Conditions(temperatureC: real, soilMoisturePct: real)

  /** The satellite's own rating as the report carries it, None when it has none. */
  type Confidence = Option<string>

  /** Whether a detection is credible enough to page somebody for. */
  predicate IsCredible(confidence: Confidence) {
    if confidence.None? || confidence.value == "" then true
    else
      var value := Lower(Trim(confidence.value));
      if value == "l" || value == "low" then false
      else if value == "n" || value == "h" || value == "nominal" || value == "high" then true
      else
        var numeric := NumberOf(value);
        if numeric.Some? then numeric.value >= CREDIBLE_PERCENTAGE else true
  }

  /** A live probe's reading; either field may be missing. */
  datatype LocalReading = LocalReading(
    temperatureC: Option<real>,
    soilMoisturePct: Option<real>,
    deviceId: string)

  datatype Smouldering = Smouldering(passes: nat, windowHours: nat, peakFrpMw: real)

  datatype DecisionInput = DecisionInput(
    hazardType: Option<string>,
    confidence: Confidence,
    regional: Conditions,
    local: Option<LocalReading>,
    smouldering: Option<Smouldering>)

  datatype Withheld =
    | PreconditionsNotMet(conditions: Conditions, groundSource: string)
    | ConfidenceRatedLow(confidence: Confidence)

  datatype Decision = Decision(
    level: AlertLevel,
    withheldBecause: Option<Withheld>,
    conditions: Conditions,
    groundSource: string)

  /** The probe's field where it measured one, the regional estimate otherwise. */
  function ConditionsUsed(regional: Conditions, local: Option<LocalReading>): Conditions {
    if local.None? then regional
    else Conditions(
           local.value.temperatureC.GetOr(regional.temperatureC),
           local.value.soilMoisturePct.GetOr(regional.soilMoisturePct))
  }

  /** Warm enough for white phosphorus and dry enough for the soil to crack. */
  predicate WindowOpen(conditions: Conditions) {
    && conditions.temperatureC >= IGNITION_TEMPERATURE_C
    && conditions.soilMoisturePct < CRITICAL_SOIL_MOISTURE_PCT
  }

  function Decide(input: DecisionInput): Decision {
    var conditions := ConditionsUsed(input.regional, input.local);
    var groundSource :=
      if input.local.Some? then "sensor " + input.local.value.deviceId else "regional estimate";
    if input.hazardType.None? then
      Decision(Info, None, conditions, groundSource)
    else if input.smouldering.Some? then
      Decision(CriticalSmouldering, None, conditions, groundSource)
    else
      var profile := ProfileFor(input.hazardType.value);
      var windowOpen := WindowOpen(conditions);
      if profile.tracksIgnitionWindow && !profile.requiresIgnitionWeather && windowOpen then
        Decision(CriticalPhosphorusFire, None, conditions, groundSource)
      else
        var weatherOk := !profile.requiresIgnitionWeather || windowOpen;
        var credibilityOk := !profile.requiresCredibleDetection || IsCredible(input.confidence);
        if weatherOk && credibilityOk then
          Decision(profile.criticalLevel, None, conditions, groundSource)
        else
          var reason :=
            if !weatherOk then PreconditionsNotMet(conditions, groundSource)
            else ConfidenceRatedLow(input.confidence);
          Decision(Elevated, Some(reason), conditions, groundSource)
  }

  // ---------------------------------------------------------------------
  // What the rule promises, stated per hazard as its documentation does
  // ---------------------------------------------------------------------

  /** Who must be paged, hazard by hazard: phosphorus waits for the window, a
      forest for a credible detection, a contaminated forest for either, an
      ammunition site for nothing, and any other type for credibility. */
  ghost predicate MustPage(hazardType: string, windowOpen: bool, credible: bool, smouldering: bool) {
    || smouldering
    || (hazardType == "white_phosphorus" && windowOpen)
    || (hazardType == "white_phosphorus_forest" && (windowOpen || credible))
    || hazardType == "ammunition_depot"
    || (hazardType !in {"white_phosphorus", "white_phosphorus_forest", "ammunition_depot"} && credible)
  }

  /** The mechanism a page names: persistence before anything else, phosphorus
      wherever the window is what opened it, and otherwise the zone's hazard. */
  ghost function MechanismOf(hazardType: string, windowOpen: bool, smouldering: bool): AlertLevel {
    if smouldering then CriticalSmouldering
    else if windowOpen && hazardType in {"white_phosphorus", "white_phosphorus_forest"} then CriticalPhosphorusFire
    else if hazardType in {"white_phosphorus_forest", "wildfire"} then CriticalWildfire
    else if hazardType == "ammunition_depot" then CriticalOrdnanceHeat
    else CriticalThermalAnomaly
  }

  /** The decision pages exactly when the per-hazard statement says so; a page
      names the mechanism; outside every zone it is INFO, in a zone it never is,
      and a reason is given exactly when an in-zone detection stays below
      critical. */
  lemma DecideMeetsTheHazardTable(input: DecisionInput)
    ensures var d := Decide(input);
            && (IsCritical(d.level) <==>
                  && input.hazardType.Some?
                  && MustPage(input.hazardType.value,
                              WindowOpen(ConditionsUsed(input.regional, input.local)),
                              IsCredible(input.confidence), input.smouldering.Some?))
            && (d.level == Info <==> input.hazardType.None?)
            && (d.withheldBecause.Some? <==> d.level == Elevated)
            && d.level != CriticalSensorHeat
            && (IsCritical(d.level) ==>
                  d.level == MechanismOf(input.hazardType.value,
                                         WindowOpen(ConditionsUsed(input.regional, input.local)),
                                         input.smouldering.Some?))
  {
    if input.hazardType.Some? {
      HazardNamesDiffer();
    }
  }

  /** What else a decision reports: the probe's value in each field that the probe
      measured and the regional one in the other, where the ground values come
      from, and the one gate that can be shut in each hazard. */
  lemma DecisionExplainsItself(input: DecisionInput)
    ensures var d := Decide(input);
            && d.conditions.temperatureC ==
               (if input.local.Some? && input.local.value.temperatureC.Some?
                then input.local.value.temperatureC.value else input.regional.temperatureC)
            && d.conditions.soilMoisturePct ==
               (if input.local.Some? && input.local.value.soilMoisturePct.Some?
                then input.local.value.soilMoisturePct.value else input.regional.soilMoisturePct)
            && d.groundSource ==
               (if input.local.Some? then "sensor " + input.local.value.deviceId else "regional estimate")
            && (d.level == Elevated ==>
                  d.withheldBecause ==
                  Some(if input.hazardType == Some("white_phosphorus")
                       then PreconditionsNotMet(d.conditions, d.groundSource)
                       else ConfidenceRatedLow(input.confidence)))
  {
    hide IsCredible;
    HazardNamesDiffer();
  }

  lemma HazardNamesDiffer()
    ensures |"white_phosphorus"| == 16 && |"white_phosphorus_forest"| == 23
    ensures |"ammunition_depot"| == 16 && "ammunition_depot"[0] != "white_phosphorus"[0]
    ensures |"wildfire"| == 8
  {
  }

  ghost predicate AtLeastAsDangerous(a: Conditions, b: Conditions) {
    a.temperatureC >= b.temperatureC && a.soilMoisturePct <= b.soilMoisturePct
  }

  /** Making the ground hotter or drier never withdraws a page: the only way
      conditions enter the rule is one-sided. */
  lemma HotterAndDrierKeepsCritical(input: DecisionInput, other: DecisionInput)
    requires other.hazardType == input.hazardType && other.confidence == input.confidence
    requires other.smouldering == input.smouldering
    requires AtLeastAsDangerous(ConditionsUsed(other.regional, other.local),
                                ConditionsUsed(input.regional, input.local))
    requires IsCritical(Decide(input).level)
    ensures IsCritical(Decide(other).level)
  {
    DecideMeetsTheHazardTable(input);
    DecideMeetsTheHazardTable(other);
  }

  /** A contaminated forest alarms whenever a plain wildfire zone would, and
      under an open window it names the phosphorus mechanism. */
  lemma ContaminatedForestAlarmsNoLess(input: DecisionInput)
    requires input.hazardType == Some("white_phosphorus_forest")
    ensures var plain := Decide(input.(hazardType := Some("wildfire")));
            var both := Decide(input);
            && (IsCritical(plain.level) ==> IsCritical(both.level))
            && (IsCritical(both.level) && !IsCritical(plain.level) ==>
                  both.level == CriticalPhosphorusFire && !IsCredible(input.confidence))
            && (input.smouldering.None? && WindowOpen(both.conditions) ==>
                  both.level == CriticalPhosphorusFire)
  {
    HazardNamesDiffer();
    DecideMeetsTheHazardTable(input);
    DecideMeetsTheHazardTable(input.(hazardType := Some("wildfire")));
  }

  /** A rating that says low in so many words, or a percentage under thirty. */
  ghost predicate SaysLow(rating: string) {
    var text := Lower(Trim(rating));
    && text != []
    && (text in {"l", "low"} || (NumberOf(text).Some? && NumberOf(text).value < 30.0))
  }

  lemma NamesAreNoNumbers(text: string)
    requires text in {"l", "low", "n", "h", "nominal", "high"}
    ensures text != [] && NumberOf(text) == None
  {
    hide NumberOf;
    assert "l"[0] == 'l' && "low"[0] == 'l' && "n"[0] == 'n' && "nominal"[0] == 'n';
    assert "h"[0] == 'h' && "high"[0] == 'h';
    NotANumber(text);
  }

  lemma NamesDiffer()
    ensures "l" !in {"n", "h", "nominal", "high"} && "low" !in {"n", "h", "nominal", "high"}
  {
    assert "l"[0] == 'l' && "low"[0] == 'l' && "n"[0] == 'n' && "nominal"[0] == 'n';
    assert "h"[0] == 'h' && "high"[0] == 'h';
  }

  /** A rating without a visible character is suppressed, because JavaScript
      reads what trimming leaves of it as the number zero. */
  lemma BlankRatingIsSuppressed(rating: string)
    requires rating != "" && AllBlank(rating)
    ensures !IsCredible(Some(rating))
  {
    hide Overflow;
    TrimmedAwayExactly(rating);
    assert Lower([]) == [];
    OverflowIsFar();
    assert NumberOf([]) == Some(0.0);
  }

  /** The promise that only an explicitly low rating is suppressed, and that a
      missing or unreadable one never is, holds for every rating except exactly
      those made of blanks alone. */
  lemma SuppressesOnlyLowExactly(rating: string)
    ensures (!IsCredible(Some(rating)) <==> SaysLow(rating)) <==> (rating == "" || !AllBlank(rating))
    ensures IsCredible(None)
  {
    hide NumberOf, Trim, Lower, AllBlank;
    TrimmedAwayExactly(rating);
    LowerKeepsLength(Trim(rating));
    var text := Lower(Trim(rating));
    NamesDiffer();
    if text in {"l", "low", "n", "h", "nominal", "high"} {
      NamesAreNoNumbers(text);
    }
    if rating == "" {
      EmptyIsBlank();
    } else if AllBlank(rating) {
      BlankRatingIsSuppressed(rating);
    }
  }

  lemma LowerKeepsLength(s: string)
    ensures Lower(s) == [] <==> s == []
  {
  }

  lemma EmptyIsBlank()
    ensures AllBlank("")
  {
  }

  /** The names of the ratings are read in upper and lower case, and with any
      blanks around them. */
  lemma RatingNames(before: string, name: string, after: string)
    requires AllBlank(before) && AllBlank(after)
    requires name != "" && !IsBlank(name[0]) && !IsBlank(name[|name| - 1])
    ensures Lower(name) in {"l", "low"} ==> !IsCredible(Some(before + name + after))
    ensures Lower(name) in {"n", "h", "nominal", "high"} ==> IsCredible(Some(before + name + after))
  {
    hide Trim, NumberOf, Lower, AllBlank, IsBlank;
    NamesDiffer();
    TrimRemovesPadding(before, name, after);
  }

  lemma CapitalsAreRead()
    ensures Lower("L") == "l" && Lower("LOW") == "low" && Lower("N") == "n" && Lower("H") == "h"
    ensures Lower("NOMINAL") == "nominal" && Lower("HIGH") == "high"
  {
  }

  /** A percentage counts exactly from thirty up, with any blanks around it. */
  lemma PercentageCountsFromThirty(before: string, percentage: nat, after: string)
    requires AllBlank(before) && AllBlank(after)
    ensures IsCredible(Some(before + Decimal(percentage) + after)) <==> percentage >= 30
  {
    hide Trim, MathValue, Overflow, Decimal, NumberOf;
    var s := Decimal(percentage);
    TrimRemovesPadding(before, s, after);
    assert Lower(s) == s;
    NumeralReadsBack(percentage);
    OverflowIsFar();
    FiniteOrLarge(percentage);
    assert s != "l" && s != "low" && s != "n" && s != "h" && s != "nominal" && s != "high" by {
      assert IsDigit(s[0]);
      assert "l"[0] == 'l' && "low"[0] == 'l' && "n"[0] == 'n' && "nominal"[0] == 'n';
      assert "h"[0] == 'h' && "high"[0] == 'h';
    }
  }

  lemma FiniteOrLarge(n: nat)
    requires MathValue(Decimal(n)) == Some(n as real) && Overflow() > 900.0
    ensures NumberOf(Decimal(n)) == if n as real < Overflow() then Some(n as real) else None
  {
    hide MathValue, Overflow, Decimal;
  }
}
