/**
 The day-level export, and a reader that gets every row back
 (backend/src/history/history.service.ts; section 2 of RFC 4180 with the
 semicolon as delimiter).
 */
module CsvExport {
  import opened Wrappers
  import opened Text
  import opened Calendar
  import opened AlertRule

  predicate IsSpecial(c: char) {
    c == '"' || c == ';' || c == '\r' || c == '\n'
  }

  ghost predicate Plain(s: string) {
    forall i :: 0 <= i < |s| ==> !IsSpecial(s[i])
  }

  /** `value.replace(/"/g, '""')`. */
  function DoubleQuotes(s: string): string {
    if s == [] then []
    else if s[0] == '"' then ['"', '"'] + DoubleQuotes(s[1..])
    else [s[0]] + DoubleQuotes(s[1..])
  }

  predicate NeedsQuotes(s: string) {
    exists i :: 0 <= i < |s| && IsSpecial(s[i])
  }

  /** Quoted only where the reader would otherwise stop too early. */
  function CsvField(value: string): string {
    if NeedsQuotes(value) then ['"'] + DoubleQuotes(value) + ['"'] else value
  }

  // ---------------------------------------------------------------------
  // The reader
  // ---------------------------------------------------------------------

  datatype Field = Field(text: string, rest: string) | Malformed

  /** The characters of an unquoted field, up to a special one. */
  function ReadPlain(s: string): (f: Field)
    ensures f.Field? && |f.rest| <= |s|
    decreases |s|
  {
    if s == [] || IsSpecial(s[0]) then Field([], s)
    else
      var f := ReadPlain(s[1..]);
      Field([s[0]] + f.text, f.rest)
  }

  /** The characters of a quoted field after its opening quote. */
  function ReadQuoted(s: string): (f: Field)
    ensures f.Field? ==> |f.rest| < |s|
    decreases |s|
  {
    if s == [] then Malformed
    else if s[0] == '"' then
      if |s| > 1 && s[1] == '"' then
        var f := ReadQuoted(s[2..]);
        if f.Field? then Field(['"'] + f.text, f.rest) else Malformed
      else Field([], s[1..])
    else
      var f := ReadQuoted(s[1..]);
      if f.Field? then Field([s[0]] + f.text, f.rest) else Malformed
  }

  function ReadField(s: string): (f: Field)
    ensures f.Field? ==> |f.rest| <= |s|
  {
    if s != [] && s[0] == '"' then ReadQuoted(s[1..]) else ReadPlain(s)
  }

  datatype Record = Record(fields: seq<string>, rest: string) | BadRecord

  /** Fields between semicolons, closed by CR LF. */
  function ReadRecord(s: string): (r: Record)
    ensures r.Record? ==> |r.rest| < |s|
    decreases |s|
  {
    var f := ReadField(s);
    if f.Malformed? then BadRecord
    else if f.rest != [] && f.rest[0] == ';' then
      var r := ReadRecord(f.rest[1..]);
      if r.Record? then Record([f.text] + r.fields, r.rest) else BadRecord
    else if |f.rest| >= 2 && f.rest[0] == '\r' && f.rest[1] == '\n' then Record([f.text], f.rest[2..])
    else BadRecord
  }

  datatype ReadError = NotCsv

  function ReadCsv(s: string): Result<seq<seq<string>>, ReadError>
    decreases |s|
  {
    if s == [] then Ok([])
    else
      var r := ReadRecord(s);
      if r.BadRecord? then Err(NotCsv)
      else
        var more := ReadCsv(r.rest);
        if more.Ok? then Ok([r.fields] + more.value) else Err(NotCsv)
  }

  // ---------------------------------------------------------------------
  // One field, one record
  // ---------------------------------------------------------------------

  /** What may follow a field. */
  ghost predicate EndsField(tail: string) {
    tail != [] && (tail[0] == ';' || tail[0] == '\r')
  }

  lemma {:induction false} PlainReadsBack(value: string, tail: string)
    requires Plain(value) && EndsField(tail)
    ensures ReadPlain(value + tail) == Field(value, tail)
    decreases |value|
  {
    if value == [] {
      assert value + tail == tail;
    } else {
      assert (value + tail)[1..] == value[1..] + tail;
      PlainReadsBack(value[1..], tail);
    }
  }

  lemma {:induction false} QuotedReadsBack(value: string, tail: string)
    requires EndsField(tail)
    ensures ReadQuoted(DoubleQuotes(value) + (['"'] + tail)) == Field(value, tail)
    decreases |value|
  {
    var s := DoubleQuotes(value) + (['"'] + tail);
    if value == [] {
      assert s == ['"'] + tail && s[1..] == tail;
    } else {
      QuotedReadsBack(value[1..], tail);
      var after := DoubleQuotes(value[1..]) + (['"'] + tail);
      if value[0] == '"' {
        assert s[2..] == after;
      } else {
        assert s[1..] == after;
      }
    }
  }

  /** Any text, quotes, semicolons and line breaks included, is read back. */
  lemma FieldReadsBack(value: string, tail: string)
    requires EndsField(tail)
    ensures ReadField(CsvField(value) + tail) == Field(value, tail)
  {
    hide ReadPlain, ReadQuoted, DoubleQuotes;
    if NeedsQuotes(value) {
      var s := CsvField(value) + tail;
      assert s == ['"'] + (DoubleQuotes(value) + (['"'] + tail));
      assert s[1..] == DoubleQuotes(value) + (['"'] + tail);
      QuotedReadsBack(value, tail);
    } else {
      assert value == [] || !IsSpecial(value[0]);
      PlainReadsBack(value, tail);
    }
  }

  lemma PlainFieldIsItself(value: string)
    requires Plain(value)
    ensures CsvField(value) == value
  {
  }

  /** `fields.join(';')` of the quoted fields. */
  function Joined(fields: seq<string>): string
    requires fields != []
    decreases |fields|
  {
    if |fields| == 1 then CsvField(fields[0]) else CsvField(fields[0]) + (";" + Joined(fields[1..]))
  }

  lemma {:induction false} RecordReadsBack(fields: seq<string>, tail: string)
    requires fields != []
    ensures ReadRecord(Joined(fields) + ("\r\n" + tail)) == Record(fields, tail)
    decreases |fields|
  {
    var rest := "\r\n" + tail;
    if |fields| == 1 {
      FieldReadsBack(fields[0], rest);
      assert rest[2..] == tail;
      assert [fields[0]] == fields;
    } else {
      var after := ";" + (Joined(fields[1..]) + rest);
      assert Joined(fields) + rest == CsvField(fields[0]) + after;
      FieldReadsBack(fields[0], after);
      assert after[1..] == Joined(fields[1..]) + rest;
      RecordReadsBack(fields[1..], tail);
      assert [fields[0]] + fields[1..] == fields;
    }
  }

  // ---------------------------------------------------------------------
  // The export
  // ---------------------------------------------------------------------

  datatype DayRow = DayRow(day: Date, hours: nat)

  /** An active zone with its ignition days, as the query returns them. */
  datatype ZoneDays = ZoneDays(id: nat, name: string, hazardType: Option<string>, days: seq<DayRow>)

  /** Whether the ignition window is a meaningful question in a zone. */
  predicate Tracked(zone: ZoneDays) {
    ProfileFor(zone.hazardType.GetOr("generic")).tracksIgnitionWindow
  }

  const HEADER_FIELDS: seq<string> := ["zone_id", "zone", "datum", "stunden_im_fenster"]

  function FieldsOf(zone: ZoneDays, row: DayRow): (fields: seq<string>)
    requires Writable(row.day)
    ensures |fields| == 4
  {
    [Decimal(zone.id), zone.name, Iso(row.day), Decimal(row.hours)]
  }

  ghost predicate WritableDays(zones: seq<ZoneDays>) {
    forall z :: 0 <= z < |zones| ==> forall k :: 0 <= k < |zones[z].days| ==> Writable(zones[z].days[k].day)
  }

  function RowsOf(zone: ZoneDays, n: nat): (rows: seq<seq<string>>)
    requires n <= |zone.days| && forall k :: 0 <= k < |zone.days| ==> Writable(zone.days[k].day)
    ensures |rows| == n && forall k :: 0 <= k < n ==> rows[k] == FieldsOf(zone, zone.days[k])
  {
    seq(n, k requires 0 <= k < n => FieldsOf(zone, zone.days[k]))
  }

  /** One row for every tracked zone and ignition day, in order. */
  function AllRows(zones: seq<ZoneDays>): seq<seq<string>>
    requires WritableDays(zones)
  {
    if zones == [] then []
    else
      var last := zones[|zones| - 1];
      var before := AllRows(zones[..|zones| - 1]);
      if Tracked(last) then before + RowsOf(last, |last.days|) else before
  }

  /** Whether a zone's hazard is one of the two that the ignition window is about. */
  ghost predicate IsPhosphorus(zone: ZoneDays) {
    zone.hazardType == Some("white_phosphorus") || zone.hazardType == Some("white_phosphorus_forest")
  }

  lemma TrackedExactly(zone: ZoneDays)
    ensures Tracked(zone) <==> IsPhosphorus(zone)
  {
    HazardNamesDiffer();
    assert "generic"[0] == 'g' && "white_phosphorus"[0] == 'w' && "white_phosphorus_forest"[0] == 'w';
  }

  /** Where the rows of zone z begin, after the header. */
  ghost function FirstRow(zones: seq<ZoneDays>, z: nat): nat
    requires z <= |zones|
  {
    if z == 0 then 1 else FirstRow(zones, z - 1) + if IsPhosphorus(zones[z - 1]) then |zones[z - 1].days| else 0
  }

  /** Day k of zone z is in its place, with the zone's number and name, the date and
      the number of hours. */
  ghost predicate DayIsExported(rows: seq<seq<string>>, zones: seq<ZoneDays>, z: nat, k: nat)
    requires WritableDays(zones) && z < |zones| && k < |zones[z].days|
  {
    && FirstRow(zones, z) + k < |rows|
    && rows[FirstRow(zones, z) + k] ==
       [Decimal(zones[z].id), zones[z].name, Iso(zones[z].days[k].day), Decimal(zones[z].days[k].hours)]
  }

  /** A header, then for every phosphorus zone in turn one row for every day. */
  ghost predicate IsTheExport(rows: seq<seq<string>>, zones: seq<ZoneDays>)
    requires WritableDays(zones)
  {
    && 0 < |rows| == FirstRow(zones, |zones|)
    && rows[0] == ["zone_id", "zone", "datum", "stunden_im_fenster"]
    && forall z, k :: 0 <= z < |zones| && IsPhosphorus(zones[z]) && 0 <= k < |zones[z].days| ==>
                        DayIsExported(rows, zones, z, k)
  }

  lemma {:induction false} FirstRowInFront(zones: seq<ZoneDays>, z: nat)
    requires z < |zones|
    ensures FirstRow(zones[..|zones| - 1], z) == FirstRow(zones, z)
    decreases z
  {
    hide IsPhosphorus;
    if z > 0 {
      FirstRowInFront(zones, z - 1);
    }
  }

  lemma EarlierRow(zones: seq<ZoneDays>, rows: seq<seq<string>>, z: nat, k: nat)
    requires WritableDays(zones) && IsTheExport(rows, zones)
    requires z < |zones| && IsPhosphorus(zones[z]) && k < |zones[z].days|
    ensures DayIsExported(rows, zones, z, k)
  {
  }

  lemma DayKept(zones: seq<ZoneDays>, before: seq<seq<string>>, rows: seq<seq<string>>, z: nat, k: nat)
    requires WritableDays(zones) && zones != []
    requires z < |zones| - 1 && k < |zones[z].days|
    requires before <= rows && DayIsExported(before, zones[..|zones| - 1], z, k)
    ensures DayIsExported(rows, zones, z, k)
  {
    hide IsPhosphorus, Iso;
    FirstRowInFront(zones, z);
    assert rows[FirstRow(zones, z) + k] == before[FirstRow(zones, z) + k];
  }

  lemma DayAdded(zones: seq<ZoneDays>, before: seq<seq<string>>, rows: seq<seq<string>>, k: nat)
    requires WritableDays(zones) && zones != []
    requires var last := zones[|zones| - 1];
             && k < |last.days| && |before| == FirstRow(zones, |zones| - 1)
             && rows == before + RowsOf(last, |last.days|)
    ensures DayIsExported(rows, zones, |zones| - 1, k)
  {
    hide IsPhosphorus, Iso;
    var last := zones[|zones| - 1];
    assert rows[|before| + k] == RowsOf(last, |last.days|)[k];
  }

  lemma ExportGrows(zones: seq<ZoneDays>, before: seq<seq<string>>, rows: seq<seq<string>>)
    requires WritableDays(zones) && zones != []
    requires IsTheExport(before, zones[..|zones| - 1])
    requires var last := zones[|zones| - 1];
             rows == before + if IsPhosphorus(last) then RowsOf(last, |last.days|) else []
    ensures IsTheExport(rows, zones)
  {
    hide IsPhosphorus, DayIsExported, Writable;
    var n := |zones| - 1;
    FirstRowInFront(zones, n);
    forall z, k | 0 <= z < |zones| && IsPhosphorus(zones[z]) && 0 <= k < |zones[z].days|
      ensures DayIsExported(rows, zones, z, k)
    {
      if z < n {
        assert zones[..n][z] == zones[z];
        EarlierRow(zones[..n], before, z, k);
        DayKept(zones, before, rows, z, k);
      } else {
        DayAdded(zones, before, rows, k);
      }
    }
  }

  lemma {:induction false} RowsAreTheExport(zones: seq<ZoneDays>)
    requires WritableDays(zones)
    ensures IsTheExport([HEADER_FIELDS] + AllRows(zones), zones)
    decreases |zones|
  {
    hide IsPhosphorus, Tracked, RowsOf;
    if zones == [] {
      assert FirstRow(zones, 0) == 1;
    } else {
      var n := |zones| - 1;
      var before := [HEADER_FIELDS] + AllRows(zones[..n]);
      RowsAreTheExport(zones[..n]);
      TrackedExactly(zones[n]);
      hide IsTheExport;
      assert [HEADER_FIELDS] + AllRows(zones)
          == before + if IsPhosphorus(zones[n]) then RowsOf(zones[n], |zones[n].days|) else [];
      ExportGrows(zones, before, [HEADER_FIELDS] + AllRows(zones));
    }
  }

  /** The lines of a list of records. */
  function Lines(rows: seq<seq<string>>): seq<string>
    requires forall k :: 0 <= k < |rows| ==> rows[k] != []
  {
    seq(|rows|, k requires 0 <= k < |rows| => Joined(rows[k]))
  }

  /** `lines.join('\r\n') + '\r\n'`. */
  function Document(lines: seq<string>): string {
    if lines == [] then [] else lines[0] + ("\r\n" + Document(lines[1..]))
  }

  lemma {:induction false} DocumentReadsBack(rows: seq<seq<string>>)
    requires forall k :: 0 <= k < |rows| ==> rows[k] != []
    ensures ReadCsv(Document(Lines(rows))) == Ok(rows)
    decreases |rows|
  {
    if rows != [] {
      var lines := Lines(rows);
      assert lines[1..] == Lines(rows[1..]);
      RecordReadsBack(rows[0], Document(lines[1..]));
      DocumentReadsBack(rows[1..]);
      assert [rows[0]] + rows[1..] == rows;
    }
  }

  lemma DigitsArePlain(s: string)
    requires forall i :: 0 <= i < |s| ==> IsDigit(s[i])
    ensures Plain(s)
  {
  }

  lemma IsoIsPlain(d: Date)
    requires Writable(d)
    ensures Plain(Iso(d))
  {
    DigitsArePlain(Padded(d.year, 4));
    DigitsArePlain(Padded(d.month, 2));
    DigitsArePlain(Padded(d.day, 2));
    hide Padded;
    var tail := Padded(d.month, 2) + ("-" + Padded(d.day, 2));
    assert Plain("-" + Padded(d.day, 2));
    assert Plain(tail);
    assert Plain("-" + tail);
  }

  lemma JoinedCons(first: string, rest: seq<string>)
    requires rest != []
    ensures Joined([first] + rest) == CsvField(first) + (";" + Joined(rest))
  {
    assert ([first] + rest)[1..] == rest;
  }

  lemma JoinedFour(a: string, b: string, c: string, d: string)
    ensures Joined([a, b, c, d]) == CsvField(a) + (";" + (CsvField(b) + (";" + (CsvField(c) + (";" + CsvField(d))))))
  {
    hide CsvField;
    JoinedCons(c, [d]);
    JoinedCons(b, [c] + [d]);
    JoinedCons(a, [b] + ([c] + [d]));
    assert [a, b, c, d] == [a] + ([b] + ([c] + [d]));
  }

  /** The line the export writes quotes the name only; the numbers and the date
      need no quotes. */
  function LineOf(zone: ZoneDays, row: DayRow): string
    requires Writable(row.day)
  {
    Decimal(zone.id) + (";" + (CsvField(zone.name) + (";" + (Iso(row.day) + (";" + Decimal(row.hours))))))
  }

  lemma LineIsJoined(zone: ZoneDays, row: DayRow)
    requires Writable(row.day)
    ensures LineOf(zone, row) == Joined(FieldsOf(zone, row))
  {
    hide Iso, Decimal, CsvField, Joined;
    DigitsArePlain(Decimal(zone.id));
    PlainFieldIsItself(Decimal(zone.id));
    IsoIsPlain(row.day);
    PlainFieldIsItself(Iso(row.day));
    DigitsArePlain(Decimal(row.hours));
    PlainFieldIsItself(Decimal(row.hours));
    JoinedFour(Decimal(zone.id), zone.name, Iso(row.day), Decimal(row.hours));
  }

  const HEADER: string := "zone_id" + (";" + ("zone" + (";" + ("datum" + (";" + "stunden_im_fenster")))))

  lemma HeaderIsJoined()
    ensures HEADER == Joined(HEADER_FIELDS)
  {
    hide CsvField, Joined;
    PlainFieldIsItself("zone_id");
    PlainFieldIsItself("zone");
    PlainFieldIsItself("datum");
    PlainFieldIsItself("stunden_im_fenster");
    JoinedFour("zone_id", "zone", "datum", "stunden_im_fenster");
  }

  lemma OneMoreLine(rows: seq<seq<string>>, row: seq<string>)
    requires row != [] && forall k :: 0 <= k < |rows| ==> rows[k] != []
    ensures forall k :: 0 <= k < |rows + [row]| ==> (rows + [row])[k] != []
    ensures Lines(rows + [row]) == Lines(rows) + [Joined(row)]
  {
    hide Joined;
  }

  /** The inner loop of the export: one line for every day of a zone. */
  method AddZone(lines: seq<string>, zone: ZoneDays, ghost rows: seq<seq<string>>) returns (more: seq<string>)
    requires forall k :: 0 <= k < |zone.days| ==> Writable(zone.days[k].day)
    requires forall k :: 0 <= k < |rows| ==> rows[k] != []
    requires lines == Lines(rows)
    ensures forall k :: 0 <= k < |rows + RowsOf(zone, |zone.days|)| ==> (rows + RowsOf(zone, |zone.days|))[k] != []
    ensures more == Lines(rows + RowsOf(zone, |zone.days|))
  {
    hide Lines, Joined, LineOf, Writable, FieldsOf;
    more := lines;
    ghost var done := rows;
    assert rows + RowsOf(zone, 0) == rows;
    for k := 0 to |zone.days|
      invariant done == rows + RowsOf(zone, k)
      invariant forall j :: 0 <= j < |done| ==> done[j] != []
      invariant more == Lines(done)
    {
      var row := zone.days[k];
      LineIsJoined(zone, row);
      OneMoreLine(done, FieldsOf(zone, row));
      more := more + [LineOf(zone, row)];
      assert RowsOf(zone, k + 1) == RowsOf(zone, k) + [FieldsOf(zone, row)];
      assert done + [FieldsOf(zone, row)] == rows + RowsOf(zone, k + 1);
      done := done + [FieldsOf(zone, row)];
    }
  }

  /** The export reads back as its header and one record for every tracked zone
      and ignition day, whatever the zones are called. */
  method IgnitionDaysCsv(zones: seq<ZoneDays>) returns (csv: string)
    requires WritableDays(zones)
    ensures ReadCsv(csv) == Ok([HEADER_FIELDS] + AllRows(zones))
    ensures IsTheExport(ReadCsv(csv).value, zones)
  {
    hide Joined, Writable, RowsOf, ReadCsv, Document, Tracked, IsTheExport;
    var lines := [HEADER];
    ghost var rows := [HEADER_FIELDS];
    HeaderIsJoined();
    for z := 0 to |zones|
      invariant rows == [HEADER_FIELDS] + AllRows(zones[..z])
      invariant forall k :: 0 <= k < |rows| ==> rows[k] != []
      invariant lines == Lines(rows)
    {
      assert zones[..z + 1][..z] == zones[..z];
      if Tracked(zones[z]) {
        lines := AddZone(lines, zones[z], rows);
        rows := rows + RowsOf(zones[z], |zones[z].days|);
      }
    }
    assert zones[..|zones|] == zones;
    DocumentReadsBack(rows);
    RowsAreTheExport(zones);
    csv := Document(lines);
  }
}
