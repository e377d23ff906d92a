/**
 The client's list of outstanding warnings and the markers drawn for it
 (frontend real-time-alert.service.ts and critical-markers.ts).
 */
module WarningList {
  import opened Wrappers

  const MAX_ACTIVE_WARNINGS: nat := 50
  const MAX_HISTORY: nat := 100

  datatype Alert = Alert(id: nat, level: string, latitude: real, longitude: real, acknowledgedAt: Option<string>)

  /** `filter((w) => w.id !== id)`. */
  function Without(warnings: seq<Alert>, id: nat): (rest: seq<Alert>)
    ensures forall a :: a in rest <==> a in warnings && a.id != id
    ensures |rest| <= |warnings|
  {
    if warnings == [] then []
    else
      var before := Without(warnings[..|warnings| - 1], id);
      var last := warnings[|warnings| - 1];
      if last.id == id then before else before + [last]
  }

  function Take(warnings: seq<Alert>, n: nat): seq<Alert> {
    if |warnings| <= n then warnings else warnings[..n]
  }

  function ToFront(warnings: seq<Alert>, alert: Alert): seq<Alert> {
    [alert] + Without(warnings, alert.id)
  }

  function Stamp(entry: Alert, id: nat, at: string): Alert {
    if entry.id == id then entry.(acknowledgedAt := Some(at)) else entry
  }

  /** The list with the alert in front, whatever had its id gone, and the oldest
      entries cut off at the bound. */
  ghost predicate IsMovedToFront(before: seq<Alert>, alert: Alert, after: seq<Alert>, bound: nat) {
    && 0 < |after| <= bound && after[0] == alert
    && (forall i :: 0 < i < |after| ==> after[i] in before && after[i].id != alert.id)
    && (|after| < bound ==> forall a :: a in before && a.id != alert.id ==> a in after)
    && |after| <= |before| + 1
  }

  lemma MovedToFront(before: seq<Alert>, alert: Alert, bound: nat)
    requires bound > 0
    ensures IsMovedToFront(before, alert, Take([alert] + Without(before, alert.id), bound), bound)
  {
    hide Without;
    var all := [alert] + Without(before, alert.id);
    assert all[1..] == Without(before, alert.id);
    forall i | 0 < i < |all| ensures all[i] in before && all[i].id != alert.id {
      assert all[i] in all[1..];
    }
  }

  function Stamped(entries: seq<Alert>, id: nat, at: string): (r: seq<Alert>)
    ensures |r| == |entries|
    ensures forall i :: 0 <= i < |r| ==> r[i] == Stamp(entries[i], id, at)
  {
    seq(|entries|, i requires 0 <= i < |entries| => Stamp(entries[i], id, at))
  }

  /** The active list under one event, and the list that is never cut off. */
  datatype Event = Push(alert: Alert) | Taken(id: nat, at: string)

  function Bounded(warnings: seq<Alert>, event: Event): seq<Alert> {
    match event
    case Push(alert) =>
      if alert.acknowledgedAt.Some? then warnings else Take(ToFront(warnings, alert), MAX_ACTIVE_WARNINGS)
    case Taken(id, _) => Without(warnings, id)
  }

  function Unbounded(warnings: seq<Alert>, event: Event): seq<Alert> {
    match event
    case Push(alert) => if alert.acknowledgedAt.Some? then warnings else ToFront(warnings, alert)
    case Taken(id, _) => Without(warnings, id)
  }

  /** The retained history: an acknowledged entry stays, with its stamp. */
  function Recorded(history: seq<Alert>, event: Event): seq<Alert> {
    match event
    case Push(alert) => if alert.acknowledgedAt.Some? then history else Take(ToFront(history, alert), MAX_HISTORY)
    case Taken(id, at) => Stamped(history, id, at)
  }

  function RecordedAfter(start: seq<Alert>, events: seq<Event>): seq<Alert> {
    if events == [] then start
    else Recorded(RecordedAfter(start, events[..|events| - 1]), events[|events| - 1])
  }

  function BoundedAfter(events: seq<Event>): seq<Alert> {
    if events == [] then [] else Bounded(BoundedAfter(events[..|events| - 1]), events[|events| - 1])
  }

  function UnboundedAfter(events: seq<Event>): seq<Alert> {
    if events == [] then [] else Unbounded(UnboundedAfter(events[..|events| - 1]), events[|events| - 1])
  }

  ghost predicate DistinctIds(warnings: seq<Alert>) {
    forall i, j :: 0 <= i < j < |warnings| ==> warnings[i].id != warnings[j].id
  }

  lemma {:induction false} WithoutKeepsOrder(warnings: seq<Alert>, id: nat)
    requires DistinctIds(warnings)
    ensures DistinctIds(Without(warnings, id))
    decreases |warnings|
  {
    if warnings != [] {
      var front := warnings[..|warnings| - 1];
      var last := warnings[|warnings| - 1];
      WithoutKeepsOrder(front, id);
      forall a | a in Without(front, id) ensures a.id != last.id {
        assert a in front;
        var i :| 0 <= i < |front| && front[i] == a;
        assert warnings[i] == a;
      }
    }
  }

  lemma {:induction false} WithoutOfPrefix(shorter: seq<Alert>, longer: seq<Alert>, id: nat)
    requires shorter <= longer
    ensures Without(shorter, id) <= Without(longer, id)
    decreases |longer|
  {
    if shorter == longer {
    } else {
      var front := longer[..|longer| - 1];
      assert shorter <= front;
      WithoutOfPrefix(shorter, front, id);
    }
  }

  lemma DistinctAfter(warnings: seq<Alert>, event: Event)
    requires DistinctIds(warnings)
    ensures DistinctIds(Unbounded(warnings, event)) && DistinctIds(Bounded(warnings, event))
  {
    match event
    case Push(alert) => WithoutKeepsOrder(warnings, alert.id);
    case Taken(id, _) => WithoutKeepsOrder(warnings, id);
  }

  ghost predicate Unacknowledged(warnings: seq<Alert>) {
    forall i :: 0 <= i < |warnings| ==> warnings[i].acknowledgedAt.None?
  }

  lemma {:induction false} WithoutKeepsUnacknowledged(warnings: seq<Alert>, id: nat)
    requires Unacknowledged(warnings)
    ensures Unacknowledged(Without(warnings, id))
    decreases |warnings|
  {
    if warnings != [] {
      WithoutKeepsUnacknowledged(warnings[..|warnings| - 1], id);
    }
  }

  lemma EventKeepsBoundedPrefix(active: seq<Alert>, all: seq<Alert>, event: Event)
    requires |active| <= MAX_ACTIVE_WARNINGS && Unacknowledged(active) && active <= all
    ensures |Bounded(active, event)| <= MAX_ACTIVE_WARNINGS
    ensures Unacknowledged(Bounded(active, event))
    ensures Bounded(active, event) <= Unbounded(all, event)
  {
    hide Without;
    match event
    case Push(alert) =>
      WithoutOfPrefix(active, all, alert.id);
      WithoutKeepsUnacknowledged(active, alert.id);
    case Taken(id, _) =>
      WithoutOfPrefix(active, all, id);
      WithoutKeepsUnacknowledged(active, id);
  }

  /** After any events the active list has no id twice, at most fifty entries,
      nothing acknowledged, and is a prefix of the list that is never cut. */
  lemma {:induction false} ActiveListIsABoundedPrefix(events: seq<Event>)
    ensures var active := BoundedAfter(events);
            && DistinctIds(active)
            && |active| <= 50
            && Unacknowledged(active)
            && active <= UnboundedAfter(events)
    decreases |events|
  {
    hide Without, Bounded, Unbounded;
    if events != [] {
      var before := events[..|events| - 1];
      ActiveListIsABoundedPrefix(before);
      DistinctAfter(BoundedAfter(before), events[|events| - 1]);
      EventKeepsBoundedPrefix(BoundedAfter(before), UnboundedAfter(before), events[|events| - 1]);
    }
  }

  ghost predicate NeverOverflows(events: seq<Event>) {
    forall n :: 0 <= n <= |events| ==> |UnboundedAfter(events[..n])| <= MAX_ACTIVE_WARNINGS
  }

  /** As long as no more than fifty warnings are outstanding the two lists are
      the same, so nothing outstanding is missing from the panel. */
  lemma {:induction false} NothingIsMissing(events: seq<Event>)
    requires NeverOverflows(events)
    ensures BoundedAfter(events) == UnboundedAfter(events)
    decreases |events|
  {
    if events != [] {
      var before := events[..|events| - 1];
      forall n | 0 <= n <= |before| ensures |UnboundedAfter(before[..n])| <= MAX_ACTIVE_WARNINGS {
        assert before[..n] == events[..n];
      }
      NothingIsMissing(before);
      assert events[..|events|] == events;
    }
  }

  ghost predicate PushedAt(events: seq<Event>, n: nat, id: nat) {
    n < |events| && events[n].Push? && events[n].alert.id == id && events[n].alert.acknowledgedAt.None?
  }

  ghost predicate TakenBetween(events: seq<Event>, n: nat, id: nat) {
    exists k :: n < k < |events| && events[k].Taken? && events[k].id == id
  }

  /** Pushed unacknowledged, and not taken since. */
  ghost predicate Outstanding(events: seq<Event>, id: nat) {
    exists n :: PushedAt(events, n, id) && !TakenBetween(events, n, id)
  }

  lemma OutstandingNext(events: seq<Event>, event: Event, id: nat)
    ensures Outstanding(events + [event], id) <==>
            || (event.Push? && event.alert.acknowledgedAt.None? && event.alert.id == id)
            || (Outstanding(events, id) && !(event.Taken? && event.id == id))
  {
    var all := events + [event];
    assert all[|events|] == event;
    forall n | 0 <= n < |events|
      ensures PushedAt(all, n, id) <==> PushedAt(events, n, id)
      ensures TakenBetween(all, n, id) <==> TakenBetween(events, n, id) || (event.Taken? && event.id == id)
    {
      if TakenBetween(events, n, id) {
        var k :| n < k < |events| && events[k].Taken? && events[k].id == id;
        assert all[k] == events[k];
      }
    }
    assert PushedAt(all, |events|, id) <==>
           event.Push? && event.alert.id == id && event.alert.acknowledgedAt.None?;
    assert !TakenBetween(all, |events|, id);
  }

  ghost predicate HasId(warnings: seq<Alert>, id: nat) {
    exists a :: a in warnings && a.id == id
  }

  lemma HasIdAfter(warnings: seq<Alert>, event: Event, id: nat)
    ensures HasId(Unbounded(warnings, event), id) <==>
            || (event.Push? && event.alert.acknowledgedAt.None? && event.alert.id == id)
            || (HasId(warnings, id) && !(event.Taken? && event.id == id))
  {
    var after := Unbounded(warnings, event);
    if HasId(warnings, id) {
      var a :| a in warnings && a.id == id;
      if event.Push? && event.alert.acknowledgedAt.None? {
        if event.alert.id == id {
          assert event.alert in after;
        } else {
          assert a in Without(warnings, event.alert.id);
          assert a in after;
        }
      } else if event.Taken? && event.id != id {
        assert a in after;
      }
    } else if event.Push? && event.alert.acknowledgedAt.None? && event.alert.id == id {
      assert event.alert in after;
    }
  }

  /** An alert is in the uncut list iff it was pushed unacknowledged and has not
      been taken since. */
  lemma {:induction false} ListedIffOutstanding(events: seq<Event>, id: nat)
    ensures HasId(UnboundedAfter(events), id) <==> Outstanding(events, id)
    decreases |events|
  {
    hide HasId, Outstanding, Unbounded, Without;
    if events == [] {
      NothingAtFirst(id);
    } else {
      var before := events[..|events| - 1];
      var last := events[|events| - 1];
      ListedIffOutstanding(before, id);
      HasIdAfter(UnboundedAfter(before), last, id);
      OutstandingNext(before, last, id);
      assert before + [last] == events;
    }
  }

  lemma NothingAtFirst(id: nat)
    ensures !HasId([], id) && !Outstanding([], id)
  {
  }

  /** The history never grows past a hundred entries or past what it was seeded
      with, and never lists an id twice. */
  lemma {:induction false} HistoryStaysBounded(start: seq<Alert>, events: seq<Event>)
    requires DistinctIds(start)
    ensures var h := RecordedAfter(start, events);
            DistinctIds(h) && (|h| <= 100 || |h| <= |start|)
    decreases |events|
  {
    hide Without;
    if events != [] {
      var before := RecordedAfter(start, events[..|events| - 1]);
      HistoryStaysBounded(start, events[..|events| - 1]);
      match events[|events| - 1]
      case Push(alert) => WithoutKeepsOrder(before, alert.id);
      case Taken(id, at) =>
        forall i, j | 0 <= i < j < |before| ensures Stamped(before, id, at)[i].id != Stamped(before, id, at)[j].id {
          assert before[i].id != before[j].id;
        }
    }
  }

  // ---------------------------------------------------------------------
  // The service
  // ---------------------------------------------------------------------

  class RealTimeAlertService {
    var activeWarnings: seq<Alert>
    var history: seq<Alert>

    constructor ()
      ensures activeWarnings == [] && history == []
    {
      activeWarnings, history := [], [];
    }

    /** A new warning moves to the front of both lists; one that already carries an
        acknowledgement leaves them alone. */
    method PushWarning(alert: Alert)
      modifies this
      ensures activeWarnings == Bounded(old(activeWarnings), Push(alert))
      ensures history == Recorded(old(history), Push(alert))
      ensures DistinctIds(old(history)) ==> DistinctIds(history)
      ensures alert.acknowledgedAt.Some? ==> activeWarnings == old(activeWarnings) && history == old(history)
      ensures alert.acknowledgedAt.None? ==>
                && IsMovedToFront(old(activeWarnings), alert, activeWarnings, 50)
                && IsMovedToFront(old(history), alert, history, 100)
    {
      if alert.acknowledgedAt.Some? {
        return;
      }
      if DistinctIds(history) {
        WithoutKeepsOrder(history, alert.id);
      }
      MovedToFront(history, alert, MAX_HISTORY);
      MovedToFront(activeWarnings, alert, MAX_ACTIVE_WARNINGS);
      history := Take([alert] + Without(history, alert.id), MAX_HISTORY);
      activeWarnings := Take([alert] + Without(activeWarnings, alert.id), MAX_ACTIVE_WARNINGS);
    }

    /** Somebody took the alert: it is outstanding no longer, and its record says
        since when. */
    method ApplyAcknowledgement(id: nat, at: string)
      modifies this
      ensures activeWarnings == Bounded(old(activeWarnings), Taken(id, at))
      ensures history == Recorded(old(history), Taken(id, at))
      ensures forall a :: a in activeWarnings <==> a in old(activeWarnings) && a.id != id
      ensures |history| == |old(history)|
      ensures forall i :: 0 <= i < |history| ==>
                            var entry := old(history)[i];
                            history[i] == if entry.id == id then entry.(acknowledgedAt := Some(at)) else entry
    {
      activeWarnings := Without(activeWarnings, id);
      history := Stamped(history, id, at);
    }

    /** A page load: the outstanding alerts arrive newest first and count as if
        they had been pushed in the order in which they happened. */
    method SeedFromHistory(recent: seq<Alert>, criticals: seq<Alert>, ghost events: seq<Event>)
      requires activeWarnings == BoundedAfter(events)
      modifies this
      ensures activeWarnings == BoundedAfter(events + Reversed(criticals))
      ensures history == RecordedAfter(recent, Reversed(criticals))
    {
      history := recent;
      var i := |criticals|;
      assert events + Reversed(criticals[|criticals|..]) == events;
      assert history == RecordedAfter(recent, Reversed(criticals[|criticals|..]));
      hide Bounded, BoundedAfter, Recorded, RecordedAfter, DistinctIds, Reversed;
      while i > 0
        invariant 0 <= i <= |criticals|
        invariant activeWarnings == BoundedAfter(events + Reversed(criticals[i..]))
        invariant history == RecordedAfter(recent, Reversed(criticals[i..]))
      {
        i := i - 1;
        PushWarning(criticals[i]);
        ReversedNext(criticals, i);
        assert events + Reversed(criticals[i..]) == (events + Reversed(criticals[i + 1..])) + [Push(criticals[i])];
        BoundedNext(events + Reversed(criticals[i + 1..]), Push(criticals[i]));
        RecordedNext(recent, Reversed(criticals[i + 1..]), Push(criticals[i]));
      }
      assert criticals[0..] == criticals;
    }
  }

  lemma BoundedNext(events: seq<Event>, event: Event)
    ensures BoundedAfter(events + [event]) == Bounded(BoundedAfter(events), event)
  {
    assert (events + [event])[..|events|] == events;
  }

  lemma RecordedNext(start: seq<Alert>, events: seq<Event>, event: Event)
    ensures RecordedAfter(start, events + [event]) == Recorded(RecordedAfter(start, events), event)
  {
    assert (events + [event])[..|events|] == events;
  }

  function Reversed(alerts: seq<Alert>): seq<Event> {
    if alerts == [] then [] else Reversed(alerts[1..]) + [Push(alerts[0])]
  }

  lemma ReversedNext(alerts: seq<Alert>, i: nat)
    requires i < |alerts|
    ensures Reversed(alerts[i..]) == Reversed(alerts[i + 1..]) + [Push(alerts[i])]
  {
    assert alerts[i..][1..] == alerts[i + 1..];
  }

  // ---------------------------------------------------------------------
  // The markers
  // ---------------------------------------------------------------------

  datatype Marker = Marker(id: nat, latitude: real, longitude: real, title: string)

  function MarkerFor(alert: Alert): Marker {
    Marker(alert.id, alert.latitude, alert.longitude, alert.level)
  }

  function IdsOf(warnings: seq<Alert>): set<nat> {
    set i | 0 <= i < |warnings| :: warnings[i].id
  }

  class CriticalMarkers {
    var attached: bool
    var markers: map<nat, Marker>
    /** What the map shows. */
    var drawn: set<Marker>

    ghost predicate Valid()
      reads this
    {
      && drawn == markers.Values
      && (forall id :: id in markers ==> markers[id].id == id)
      && (!attached ==> markers == map[])
    }

    constructor ()
      ensures Valid() && !attached && markers == map[]
    {
      attached, markers, drawn := false, map[], {};
    }

    method Attach()
      requires Valid()
      modifies this
      ensures Valid() && attached && markers == old(markers) && drawn == old(drawn)
    {
      attached := true;
    }

    /** The markers' ids become exactly the warnings' ids; a marker that is still
        wanted is not touched, and a new one stands where one of its warnings is. */
    method Sync(warnings: seq<Alert>)
      requires Valid()
      modifies this
      ensures Valid() && attached == old(attached)
      ensures !attached ==> markers == old(markers) && drawn == old(drawn)
      ensures attached ==> markers.Keys == IdsOf(warnings)
      ensures forall id :: id in old(markers) && id in markers ==> markers[id] == old(markers)[id]
      ensures forall id :: id in markers && id !in old(markers) ==>
                             exists i :: 0 <= i < |warnings| && markers[id] == MarkerFor(warnings[i])
      ensures forall id :: id in markers && id !in old(markers) ==>
                             exists i :: 0 <= i < |warnings|
                                         && warnings[i].id == id && markers[id].id == id
                                         && markers[id].latitude == warnings[i].latitude
                                         && markers[id].longitude == warnings[i].longitude
                                         && markers[id].title == warnings[i].level
      ensures drawn == markers.Values
    {
      if !attached {
        return;
      }
      var outstanding := IdsOf(warnings);
      ghost var before := markers;
      var pending := markers.Keys;
      while pending != {}
        invariant Valid() && attached
        invariant pending <= markers.Keys <= before.Keys
        invariant forall id :: id in markers ==> markers[id] == before[id]
        invariant forall id :: id in before && id in outstanding ==> id in markers
        invariant forall id :: id in markers && id !in pending ==> id in outstanding
        decreases pending
      {
        var id :| id in pending;
        pending := pending - {id};
        if id in outstanding {
          continue;
        }
        ValuesWithout(markers, id);
        drawn := drawn - {markers[id]};
        markers := markers - {id};
      }
      for n := 0 to |warnings|
        invariant Valid() && attached
        invariant markers.Keys <= outstanding
        invariant forall id :: id in before && id in outstanding ==> id in markers && markers[id] == before[id]
        invariant forall i :: 0 <= i < n ==> warnings[i].id in markers
        invariant forall id :: id in markers && id !in before ==>
                                 exists i :: 0 <= i < n && markers[id] == MarkerFor(warnings[i])
      {
        var warning := warnings[n];
        if warning.id in markers {
          continue;
        }
        ghost var was := markers;
        markers := markers[warning.id := MarkerFor(warning)];
        drawn := drawn + {MarkerFor(warning)};
        ValuesWith(was, warning.id, MarkerFor(warning));
      }
    }

    method Clear()
      requires Valid()
      modifies this
      ensures Valid() && attached == old(attached) && markers == map[] && drawn == {}
    {
      markers, drawn := map[], {};
    }
  }

  lemma ValuesWithout(markers: map<nat, Marker>, id: nat)
    requires id in markers && forall k :: k in markers ==> markers[k].id == k
    ensures (markers - {id}).Values == markers.Values - {markers[id]}
  {
    var rest := markers - {id};
    forall v | v in rest.Values ensures v in markers.Values - {markers[id]} {
      var k :| k in rest && rest[k] == v;
      assert markers[k] == v;
    }
    forall v | v in markers.Values - {markers[id]} ensures v in rest.Values {
      var k :| k in markers && markers[k] == v;
      assert rest[k] == v;
    }
  }

  lemma ValuesWith(markers: map<nat, Marker>, id: nat, m: Marker)
    requires id !in markers
    ensures markers[id := m].Values == markers.Values + {m}
  {
    var more := markers[id := m];
    assert more[id] == m;
    forall v | v in markers.Values ensures v in more.Values {
      var k :| k in markers && markers[k] == v;
      assert more[k] == v;
    }
  }
}
