/**
 Several probes in one zone: the most conservative reading wins
 (backend/src/sensors/sensor.service.ts), and what that does to the rule.
 */
module SensorMerge {
  import opened Wrappers
  import opened AlertRule

  /** One fresh reading of one probe; `observedAt` orders as its ISO text. */
  datatype Row = Row(zoneId: nat, deviceId: string, observedAt: int, temperatureC: Option<real>, soilMoisturePct: Option<real>)

  type LocalConditions = Row

  function PickMax(a: Option<real>, b: Option<real>): Option<real> {
    if a.None? then b else if b.None? then a else if a.value >= b.value then a else b
  }

  function PickMin(a: Option<real>, b: Option<real>): Option<real> {
    if a.None? then b else if b.None? then a else if a.value <= b.value then a else b
  }

  /** `(b ?? -Infinity) > (a ?? -Infinity)`. */
  predicate Hotter(b: Option<real>, a: Option<real>) {
    b.Some? && (a.None? || b.value > a.value)
  }

  /** Each field takes the worse of the two; the device is the one that gave the
      temperature. */
  function MostConservative(a: LocalConditions, b: LocalConditions): LocalConditions {
    Row(a.zoneId,
        if Hotter(b.temperatureC, a.temperatureC) then b.deviceId else a.deviceId,
        if a.observedAt > b.observedAt then a.observedAt else b.observedAt,
        PickMax(a.temperatureC, b.temperatureC),
        PickMin(a.soilMoisturePct, b.soilMoisturePct))
  }

  // ---------------------------------------------------------------------
  // What a zone's merged reading is, whatever the order of the rows
  // ---------------------------------------------------------------------

  ghost predicate IsHottest(rows: seq<Row>, zone: nat, t: Option<real>) {
    && (t.None? ==> forall i :: 0 <= i < |rows| && rows[i].zoneId == zone ==> rows[i].temperatureC.None?)
    && (t.Some? ==>
          && (exists i :: 0 <= i < |rows| && rows[i].zoneId == zone && rows[i].temperatureC == t)
          && (forall i :: 0 <= i < |rows| && rows[i].zoneId == zone && rows[i].temperatureC.Some? ==>
                            rows[i].temperatureC.value <= t.value))
  }

  ghost predicate IsDriest(rows: seq<Row>, zone: nat, m: Option<real>) {
    && (m.None? ==> forall i :: 0 <= i < |rows| && rows[i].zoneId == zone ==> rows[i].soilMoisturePct.None?)
    && (m.Some? ==>
          && (exists i :: 0 <= i < |rows| && rows[i].zoneId == zone && rows[i].soilMoisturePct == m)
          && (forall i :: 0 <= i < |rows| && rows[i].zoneId == zone && rows[i].soilMoisturePct.Some? ==>
                            m.value <= rows[i].soilMoisturePct.value))
  }

  ghost predicate IsLatest(rows: seq<Row>, zone: nat, at: int) {
    && (exists i :: 0 <= i < |rows| && rows[i].zoneId == zone && rows[i].observedAt == at)
    && (forall i :: 0 <= i < |rows| && rows[i].zoneId == zone ==> rows[i].observedAt <= at)
  }

  /** Some probe of the zone with this id measured the reported temperature. */
  ghost predicate IsNamed(rows: seq<Row>, zone: nat, deviceId: string, t: Option<real>) {
    exists i :: 0 <= i < |rows| && rows[i].zoneId == zone && rows[i].deviceId == deviceId && rows[i].temperatureC == t
  }

  ghost predicate Summarises(rows: seq<Row>, zone: nat, c: LocalConditions) {
    && c.zoneId == zone
    && IsHottest(rows, zone, c.temperatureC)
    && IsDriest(rows, zone, c.soilMoisturePct)
    && IsLatest(rows, zone, c.observedAt)
    && IsNamed(rows, zone, c.deviceId, c.temperatureC)
  }

  ghost predicate HasZone(rows: seq<Row>, zone: nat) {
    exists i :: 0 <= i < |rows| && rows[i].zoneId == zone
  }

  ghost predicate SummarisesAll(rows: seq<Row>, byZone: map<nat, LocalConditions>) {
    && (forall z :: z in byZone <==> HasZone(rows, z))
    && (forall z :: z in byZone ==> Summarises(rows, z, byZone[z]))
  }

  lemma OtherZoneKept(rows: seq<Row>, row: Row, zone: nat, c: LocalConditions)
    requires Summarises(rows, zone, c) && row.zoneId != zone
    ensures Summarises(rows + [row], zone, c)
  {
    var all := rows + [row];
    assert forall i :: 0 <= i < |rows| ==> all[i] == rows[i];
    var i :| 0 <= i < |rows| && rows[i].zoneId == zone && rows[i].observedAt == c.observedAt;
    assert all[i].observedAt == c.observedAt;
    var k :| 0 <= k < |rows| && rows[k].zoneId == zone && rows[k].deviceId == c.deviceId && rows[k].temperatureC == c.temperatureC;
    assert all[k].deviceId == c.deviceId;
    if c.soilMoisturePct.Some? {
      var d :| 0 <= d < |rows| && rows[d].zoneId == zone && rows[d].soilMoisturePct == c.soilMoisturePct;
      assert all[d].soilMoisturePct == c.soilMoisturePct;
    }
  }

  lemma FirstRow(rows: seq<Row>, row: Row)
    requires !HasZone(rows, row.zoneId)
    ensures Summarises(rows + [row], row.zoneId, row)
  {
    var all := rows + [row];
    assert all[|rows|] == row;
    assert forall i :: 0 <= i < |all| && all[i].zoneId == row.zoneId ==> i == |rows|;
  }

  lemma MergedRow(rows: seq<Row>, row: Row, c: LocalConditions)
    requires Summarises(rows, row.zoneId, c)
    ensures Summarises(rows + [row], row.zoneId, MostConservative(c, row))
  {
    var all := rows + [row];
    var zone := row.zoneId;
    var merged := MostConservative(c, row);
    assert all[|rows|] == row;
    assert forall i :: 0 <= i < |rows| ==> all[i] == rows[i];
    assert IsHottest(all, zone, merged.temperatureC) by {
      if c.temperatureC.Some? {
        var i :| 0 <= i < |rows| && rows[i].zoneId == zone && rows[i].temperatureC == c.temperatureC;
        assert all[i].temperatureC == c.temperatureC;
      }
    }
    assert IsDriest(all, zone, merged.soilMoisturePct) by {
      if c.soilMoisturePct.Some? {
        var i :| 0 <= i < |rows| && rows[i].zoneId == zone && rows[i].soilMoisturePct == c.soilMoisturePct;
        assert all[i].soilMoisturePct == c.soilMoisturePct;
      }
    }
    assert IsLatest(all, zone, merged.observedAt) by {
      var i :| 0 <= i < |rows| && rows[i].zoneId == zone && rows[i].observedAt == c.observedAt;
      assert all[i].observedAt == c.observedAt;
    }
    assert IsNamed(all, zone, merged.deviceId, merged.temperatureC) by {
      var i :| 0 <= i < |rows| && rows[i].zoneId == zone && rows[i].deviceId == c.deviceId && rows[i].temperatureC == c.temperatureC;
      assert all[i].deviceId == c.deviceId;
    }
  }

  /** One entry for every zone with a row, and it is the zone's hottest, driest
      and latest reading, under the id of a probe that measured that heat. */
  method CurrentByZone(rows: seq<Row>) returns (byZone: map<nat, LocalConditions>)
    ensures SummarisesAll(rows, byZone)
  {
    byZone := map[];
    for n := 0 to |rows|
      invariant SummarisesAll(rows[..n], byZone)
    {
      var row := rows[n];
      ghost var seen := rows[..n];
      assert rows[..n + 1] == seen + [row];
      ghost var before := byZone;
      var merged := if row.zoneId in byZone then MostConservative(byZone[row.zoneId], row) else row;
      byZone := byZone[row.zoneId := merged];
      if row.zoneId in before {
        MergedRow(seen, row, before[row.zoneId]);
      } else {
        FirstRow(seen, row);
      }
      forall z | z in byZone ensures Summarises(rows[..n + 1], z, byZone[z]) {
        if z != row.zoneId {
          OtherZoneKept(seen, row, z, byZone[z]);
        }
      }
      forall z ensures HasZone(rows[..n + 1], z) <==> HasZone(seen, z) || z == row.zoneId {
        ZoneAdded(seen, row, z);
      }
    }
    assert rows[..|rows|] == rows;
  }

  lemma ZoneAdded(rows: seq<Row>, row: Row, z: nat)
    ensures HasZone(rows + [row], z) <==> HasZone(rows, z) || z == row.zoneId
  {
    assert (rows + [row])[|rows|] == row;
    if HasZone(rows, z) {
      var i :| 0 <= i < |rows| && rows[i].zoneId == z;
      assert (rows + [row])[i].zoneId == z;
    }
  }

  lemma SameTemperature(rows: seq<Row>, others: seq<Row>, zone: nat, t: Option<real>, u: Option<real>)
    requires multiset(rows) == multiset(others)
    requires IsHottest(rows, zone, t) && IsHottest(others, zone, u) && u.Some?
    ensures t.Some? && u.value <= t.value
  {
    var i :| 0 <= i < |others| && others[i].zoneId == zone && others[i].temperatureC == u;
    assert others[i] in multiset(rows);
    assert others[i] in rows;
  }

  lemma SameMoisture(rows: seq<Row>, others: seq<Row>, zone: nat, m: Option<real>, n: Option<real>)
    requires multiset(rows) == multiset(others)
    requires IsDriest(rows, zone, m) && IsDriest(others, zone, n) && n.Some?
    ensures m.Some? && m.value <= n.value
  {
    var i :| 0 <= i < |others| && others[i].zoneId == zone && others[i].soilMoisturePct == n;
    assert others[i] in multiset(rows);
    assert others[i] in rows;
  }

  lemma SameTime(rows: seq<Row>, others: seq<Row>, zone: nat, at: int, then_: int)
    requires multiset(rows) == multiset(others)
    requires IsLatest(rows, zone, at) && IsLatest(others, zone, then_)
    ensures then_ <= at
  {
    var i :| 0 <= i < |others| && others[i].zoneId == zone && others[i].observedAt == then_;
    assert others[i] in multiset(rows);
    assert others[i] in rows;
  }

  /** The order in which the database returns the rows does not matter. */
  lemma OrderDoesNotMatter(rows: seq<Row>, others: seq<Row>, zone: nat, a: LocalConditions, b: LocalConditions)
    requires multiset(rows) == multiset(others)
    requires Summarises(rows, zone, a) && Summarises(others, zone, b)
    ensures a.temperatureC == b.temperatureC && a.soilMoisturePct == b.soilMoisturePct && a.observedAt == b.observedAt
  {
    SameTime(rows, others, zone, a.observedAt, b.observedAt);
    SameTime(others, rows, zone, b.observedAt, a.observedAt);
    if b.temperatureC.Some? {
      SameTemperature(rows, others, zone, a.temperatureC, b.temperatureC);
    }
    if a.temperatureC.Some? {
      SameTemperature(others, rows, zone, b.temperatureC, a.temperatureC);
    }
    if b.soilMoisturePct.Some? {
      SameMoisture(rows, others, zone, a.soilMoisturePct, b.soilMoisturePct);
    }
    if a.soilMoisturePct.Some? {
      SameMoisture(others, rows, zone, b.soilMoisturePct, a.soilMoisturePct);
    }
  }

  // ---------------------------------------------------------------------
  // Sensors and the rule
  // ---------------------------------------------------------------------

  function AsLocal(c: LocalConditions): Option<LocalReading> {
    Some(LocalReading(c.temperatureC, c.soilMoisturePct, c.deviceId))
  }

  predicate FullyMeasured(c: LocalConditions) {
    c.temperatureC.Some? && c.soilMoisturePct.Some?
  }

  /** Where both fields are already measured, one more sensor never turns a
      critical verdict into another. */
  lemma AddedSensorKeepsCritical(input: DecisionInput, existing: LocalConditions, added: Row)
    requires FullyMeasured(existing) && input.local == AsLocal(existing)
    requires IsCritical(Decide(input).level)
    ensures IsCritical(Decide(input.(local := AsLocal(MostConservative(existing, added)))).level)
  {
    HotterAndDrierKeepsCritical(input, input.(local := AsLocal(MostConservative(existing, added))));
  }

  /** Whatever one more sensor measures, the detection still pages. */
  ghost predicate SafeToAddTo(input: DecisionInput, existing: LocalConditions) {
    forall added: Row ::
      IsCritical(Decide(input.(local := AsLocal(MostConservative(existing, added)))).level)
  }

  lemma CoolAndWetClosesTheWindow(input: DecisionInput, existing: LocalConditions)
    requires !FullyMeasured(existing)
    ensures var added := Row(existing.zoneId, "second", existing.observedAt, Some(0.0), Some(100.0));
            !WindowOpen(ConditionsUsed(input.regional, AsLocal(MostConservative(existing, added))))
  {
  }

  /** The condition is exact, for every detection that pages: a further sensor is
      harmless iff both fields are measured already or the page does not rest on
      the window. A probe that measures one field only leaves the other to the
      regional estimate, and a cooler or wetter second probe then replaces that
      estimate and withdraws the page. */
  lemma SafeExactlyWhenFullyMeasured(input: DecisionInput, existing: LocalConditions)
    requires input.local == AsLocal(existing) && IsCritical(Decide(input).level)
    ensures input.hazardType.Some?
    ensures SafeToAddTo(input, existing) <==>
            || FullyMeasured(existing)
            || MustPage(input.hazardType.value, false, IsCredible(input.confidence), input.smouldering.Some?)
  {
    hide Decide, IsCredible, WindowOpen;
    DecideMeetsTheHazardTable(input);
    var credible := IsCredible(input.confidence);
    if FullyMeasured(existing) {
      forall added: Row ensures IsCritical(Decide(input.(local := AsLocal(MostConservative(existing, added)))).level) {
        AddedSensorKeepsCritical(input, existing, added);
      }
    } else if MustPage(input.hazardType.value, false, credible, input.smouldering.Some?) {
      forall added: Row ensures IsCritical(Decide(input.(local := AsLocal(MostConservative(existing, added)))).level) {
        DecideMeetsTheHazardTable(input.(local := AsLocal(MostConservative(existing, added))));
      }
    } else {
      var coolAndWet := Row(existing.zoneId, "second", existing.observedAt, Some(0.0), Some(100.0));
      CoolAndWetClosesTheWindow(input, existing);
      var after := input.(local := AsLocal(MostConservative(existing, coolAndWet)));
      DecideMeetsTheHazardTable(after);
      assert !IsCritical(Decide(after).level);
    }
  }
}
