/**
 Cutting an archive backfill into requests and naming the days that no product
 holds (workers/src/ingestion/satellite-backfill.plan.ts).
 */
module BackfillPlan {
  import opened Wrappers
  import opened FiniteSets
  import opened Text
  import opened Calendar
  import opened Sorting
  import opened Runs

  const FIRMS_MAX_DAY_RANGE: int := 5

  /** One line of the availability listing. */
  datatype Product = Product(source: string, minDate: Date, maxDate: Date)

  datatype Request = Request(source: string, startDate: Date, dayRange: nat)

  predicate Listed(p: Product) {
    Writable(p.minDate) && Writable(p.maxDate)
  }

  predicate Asks(r: Request, day: int)
    requires Valid(r.startDate)
  {
    DayNumber(r.startDate) <= day < DayNumber(r.startDate) + r.dayRange
  }

  predicate Holds(p: Product, day: int)
    requires Listed(p)
  {
    DayNumber(p.minDate) <= day <= DayNumber(p.maxDate)
  }

  // ---------------------------------------------------------------------
  // Tiles
  // ---------------------------------------------------------------------

  /** The greedy windows over the days first..last. */
  function Tiles(source: string, first: int, last: int): (tiles: seq<Request>)
    ensures forall k :: 0 <= k < |tiles| ==> Valid(tiles[k].startDate)
    decreases last - first
  {
    if first > last then []
    else
      var n := if last - first + 1 < FIRMS_MAX_DAY_RANGE then last - first + 1 else FIRMS_MAX_DAY_RANGE;
      [Request(source, DateOf(first), n)] + Tiles(source, first + n, last)
  }

  /** Where each window lies: they follow each other without a gap or an
      overlap, all of five days but the last, from the first day to the last. */
  lemma {:induction false} TileAt(source: string, first: int, last: int, k: nat)
    requires k < |Tiles(source, first, last)|
    ensures var r := Tiles(source, first, last)[k];
            && r.source == source
            && DayNumber(r.startDate) == first + 5 * k
            && 1 <= r.dayRange <= 5
            && (k + 1 < |Tiles(source, first, last)| ==> r.dayRange == 5)
            && (k + 1 == |Tiles(source, first, last)| ==> first + 5 * k + r.dayRange == last + 1)
    decreases k
  {
    hide DayNumber, DateOf;
    var tiles := Tiles(source, first, last);
    if k > 0 {
      assert tiles[k] == Tiles(source, first + 5, last)[k - 1];
      TileAt(source, first + 5, last, k - 1);
    }
  }

  lemma {:induction false} TileCount(source: string, first: int, last: int)
    ensures |Tiles(source, first, last)| == if first > last then 0 else (last - first) / 5 + 1
    decreases last - first
  {
    if first <= last {
      TileCount(source, first + FIRMS_MAX_DAY_RANGE, last);
    }
  }

  ghost predicate AskedBy(requests: seq<Request>, day: int) {
    exists k :: 0 <= k < |requests| && Valid(requests[k].startDate) && Asks(requests[k], day)
  }

  /** Each day is asked for by a window iff it lies in the range, and by one
      window only. */
  lemma TilesPartition(source: string, first: int, last: int, day: int)
    ensures var tiles := Tiles(source, first, last);
            && (AskedBy(tiles, day) <==> first <= day <= last)
            && (forall j, k :: 0 <= j < k < |tiles| ==> !(Asks(tiles[j], day) && Asks(tiles[k], day)))
  {
    hide DayNumber, Tiles;
    var tiles := Tiles(source, first, last);
    TileCount(source, first, last);
    forall k | 0 <= k < |tiles| ensures Asks(tiles[k], day) ==> first <= day <= last && (day - first) / 5 == k {
      TileAt(source, first, last, k);
    }
    if first <= day <= last {
      var k := (day - first) / 5;
      TileAt(source, first, last, k);
      assert Asks(tiles[k], day);
    }
  }

  function DaysAsked(requests: seq<Request>): set<int>
    requires forall k :: 0 <= k < |requests| ==> Valid(requests[k].startDate)
  {
    if requests == [] then {}
    else
      var r := requests[|requests| - 1];
      DaysAsked(requests[..|requests| - 1]) + RangeSet(DayNumber(r.startDate), r.dayRange)
  }

  predicate InRange(d: int, first: int, n: nat) {
    first <= d < first + n
  }

  function RangeSet(first: int, n: nat): set<int> {
    set d | first <= d < first + n && InRange(d, first, n)
  }

  lemma {:induction false} RangeSize(first: int, n: nat)
    ensures |RangeSet(first, n)| == n
    decreases n
  {
    if n > 0 {
      assert RangeSet(first, n) == RangeSet(first, n - 1) + {first + n - 1};
      RangeSize(first, n - 1);
    } else {
      assert RangeSet(first, n) == {};
    }
  }

  lemma {:induction false} DaysAskedBound(requests: seq<Request>)
    requires forall k :: 0 <= k < |requests| ==> Valid(requests[k].startDate) && requests[k].dayRange <= 5
    ensures |DaysAsked(requests)| <= 5 * |requests|
    ensures forall day :: AskedBy(requests, day) ==> day in DaysAsked(requests)
    decreases |requests|
  {
    hide DayNumber;
    if requests != [] {
      var front := requests[..|requests| - 1];
      var r := requests[|requests| - 1];
      DaysAskedBound(front);
      RangeSize(DayNumber(r.startDate), r.dayRange);
      assert |DaysAsked(requests)| <= |DaysAsked(front)| + r.dayRange;
      forall day | AskedBy(requests, day) ensures day in DaysAsked(requests) {
        var k :| 0 <= k < |requests| && Valid(requests[k].startDate) && Asks(requests[k], day);
        if k < |front| {
          assert front[k] == requests[k];
          assert AskedBy(front, day);
        }
      }
    }
  }

  /** No plan that covers the range with requests FIRMS accepts is shorter. */
  lemma TilesAreFewest(source: string, first: int, last: int, others: seq<Request>)
    requires forall k :: 0 <= k < |others| ==> Valid(others[k].startDate) && others[k].dayRange <= 5
    requires forall day :: first <= day <= last ==> AskedBy(others, day)
    ensures |Tiles(source, first, last)| <= |others|
  {
    hide DayNumber, Tiles;
    TileCount(source, first, last);
    if first <= last {
      DaysAskedBound(others);
      RangeSize(first, last - first + 1);
      SubsetSize(RangeSet(first, last - first + 1), DaysAsked(others));
    }
  }

  // ---------------------------------------------------------------------
  // The plan
  // ---------------------------------------------------------------------

  predicate InFamily(p: Product, family: string) {
    p.source == family + "_SP" || p.source == family + "_NRT"
  }

  function OfFamily(family: string, availability: seq<Product>): (products: seq<Product>)
    ensures forall p :: p in products <==> p in availability && InFamily(p, family)
  {
    if availability == [] then []
    else
      var before := OfFamily(family, availability[..|availability| - 1]);
      var last := availability[|availability| - 1];
      if InFamily(last, family) then before + [last] else before
  }

  /** The products a run asks: family by family, in the order of the listing. */
  function Selected(families: seq<string>, availability: seq<Product>): (products: seq<Product>)
    ensures forall p :: p in products <==>
                          p in availability && exists f :: f in families && InFamily(p, f)
  {
    if families == [] then []
    else
      Selected(families[..|families| - 1], availability)
      + OfFamily(families[|families| - 1], availability)
  }

  /** How many of the chosen families a product belongs to. */
  function FamilyCount(families: seq<string>, p: Product): nat {
    if families == [] then 0
    else FamilyCount(families[..|families| - 1], p) + if InFamily(p, families[|families| - 1]) then 1 else 0
  }

  lemma {:induction false} OfFamilyCounts(family: string, availability: seq<Product>, p: Product)
    ensures multiset(OfFamily(family, availability))[p] == if InFamily(p, family) then multiset(availability)[p] else 0
    decreases |availability|
  {
    hide InFamily;
    if availability != [] {
      var n := |availability| - 1;
      OfFamilyCounts(family, availability[..n], p);
      assert availability == availability[..n] + [availability[n]];
    }
  }

  /** A product is asked once for every family it was chosen by and every line of
      the listing that names it: nothing is filtered out on the way, and a family
      given twice is asked twice. */
  lemma {:induction false} SelectedCounts(families: seq<string>, availability: seq<Product>, p: Product)
    ensures multiset(Selected(families, availability))[p] == FamilyCount(families, p) * multiset(availability)[p]
    decreases |families|
  {
    hide InFamily, OfFamily, Selected;
    if families == [] {
      NoneSelected(availability);
    } else {
      var n := |families| - 1;
      SelectedCounts(families[..n], availability, p);
      OfFamilyCounts(families[n], availability, p);
      SelectedSplits(families, availability);
      var before, last := Selected(families[..n], availability), OfFamily(families[n], availability);
      assert multiset(before + last)[p] == multiset(before)[p] + multiset(last)[p];
      OneMoreTimes(FamilyCount(families[..n], p), multiset(availability)[p]);
    }
  }

  lemma NoneSelected(availability: seq<Product>)
    ensures Selected([], availability) == []
  {
  }

  lemma SelectedSplits(families: seq<string>, availability: seq<Product>)
    requires families != []
    ensures Selected(families, availability) ==
            Selected(families[..|families| - 1], availability) + OfFamily(families[|families| - 1], availability)
  {
    hide OfFamily;
  }

  lemma OneMoreTimes(k: nat, m: nat)
    ensures (k + 1) * m == k * m + m
  {
  }

  /** The first and last day asked of a product: the later start, the earlier
      end. An empty intersection has its end before its start. */
  function FirstDay(from: Date, p: Product): int
    requires Valid(from) && Listed(p)
  {
    if DayNumber(from) > DayNumber(p.minDate) then DayNumber(from) else DayNumber(p.minDate)
  }

  function LastDay(to: Date, p: Product): int
    requires Valid(to) && Listed(p)
  {
    if DayNumber(to) < DayNumber(p.maxDate) then DayNumber(to) else DayNumber(p.maxDate)
  }

  function TilesOf(from: Date, to: Date, p: Product): seq<Request>
    requires Valid(from) && Valid(to) && Listed(p)
  {
    Tiles(p.source, FirstDay(from, p), LastDay(to, p))
  }

  function Unsorted(from: Date, to: Date, products: seq<Product>): (requests: seq<Request>)
    requires Valid(from) && Valid(to) && forall p :: p in products ==> Listed(p)
    ensures forall k :: 0 <= k < |requests| ==> Valid(requests[k].startDate)
  {
    if products == [] then []
    else Unsorted(from, to, products[..|products| - 1]) + TilesOf(from, to, products[|products| - 1])
  }

  /** By start date, then by source in the collation of the runtime. */
  predicate NotAfter(collate: (string, string) -> bool, a: Request, b: Request) {
    Earlier(a.startDate, b.startDate) || (a.startDate == b.startDate && collate(a.source, b.source))
  }

  function ByDate(collate: (string, string) -> bool): (Request, Request) -> bool {
    (a: Request, b: Request) => NotAfter(collate, a, b)
  }

  lemma ByDateIsTotal(collate: (string, string) -> bool)
    requires IsTotalPreorder(collate)
    ensures IsTotalPreorder(ByDate(collate))
  {
    forall a: Request, b: Request ensures ByDate(collate)(a, b) || ByDate(collate)(b, a) {
      assert collate(a.source, b.source) || collate(b.source, a.source);
      assert NotAfter(collate, a, b) || NotAfter(collate, b, a);
    }
    forall a: Request, b: Request, d: Request | ByDate(collate)(a, b) && ByDate(collate)(b, d)
      ensures ByDate(collate)(a, d)
    {
      assert NotAfter(collate, a, b) && NotAfter(collate, b, d);
      assert NotAfter(collate, a, d);
    }
  }

  datatype PlanError = RangeIsInverted

  /** One product's windows, cut in place by a moving cursor. */
  method CutWindows(source: string, start: Date, end: Date) returns (requests: seq<Request>)
    requires Valid(start) && Valid(end)
    ensures requests == Tiles(source, DayNumber(start), DayNumber(end))
  {
    hide DayNumber, DateOf, AddDays;
    requests := [];
    var cursor := start;
    while DaysBetween(cursor, end) >= 0
      invariant Valid(cursor)
      invariant requests + Tiles(source, DayNumber(cursor), DayNumber(end)) ==
                Tiles(source, DayNumber(start), DayNumber(end))
      decreases DayNumber(end) - DayNumber(cursor) + 1
    {
      var remaining := DaysBetween(cursor, end) + 1;
      var dayRange := if remaining < FIRMS_MAX_DAY_RANGE then remaining else FIRMS_MAX_DAY_RANGE;
      DateOfIsInverse(cursor);
      AddDaysMoves(cursor, dayRange);
      ghost var rest := Tiles(source, DayNumber(cursor) + dayRange, DayNumber(end));
      assert requests + ([Request(source, cursor, dayRange)] + rest) == (requests + [Request(source, cursor, dayRange)]) + rest;
      requests := requests + [Request(source, cursor, dayRange)];
      cursor := AddDays(cursor, dayRange);
    }
    assert requests + [] == requests;
  }

  /** The asked range cut to what the product holds, by comparing the texts. */
  method Clip(from: Date, to: Date, product: Product) returns (start: Date, end: Date)
    requires Writable(from) && Writable(to) && Listed(product)
    ensures Valid(start) && DayNumber(start) == FirstDay(from, product)
    ensures Valid(end) && DayNumber(end) == LastDay(to, product)
  {
    hide DayNumber;
    IsoOrderIsDayOrder(product.minDate, from);
    IsoOrderIsDayOrder(to, product.maxDate);
    start := if StringLess(Iso(product.minDate), Iso(from)) then from else product.minDate;
    end := if StringLess(Iso(to), Iso(product.maxDate)) then to else product.maxDate;
  }

  /** The windows of one family's products, pushed after the earlier ones. */
  method AddProducts(from: Date, to: Date, ghost earlier: seq<Product>, products: seq<Product>, before: seq<Request>)
    returns (requests: seq<Request>)
    requires Writable(from) && Writable(to)
    requires forall p :: p in earlier || p in products ==> Listed(p)
    requires before == Unsorted(from, to, earlier)
    ensures requests == Unsorted(from, to, earlier + products)
  {
    hide DayNumber, DateOf, AddDays, Tiles;
    requests := before;
    assert earlier + products[..0] == earlier;
    for i := 0 to |products|
      invariant requests == Unsorted(from, to, earlier + products[..i])
    {
      var product := products[i];
      UnsortedNext(from, to, earlier + products[..i], product);
      assert earlier + products[..i + 1] == (earlier + products[..i]) + [product];
      var start, end := Clip(from, to, product);
      if DaysBetween(start, end) < 0 {
        NothingToCut(from, to, product);
        continue;
      }
      var windows := CutWindows(product.source, start, end);
      requests := requests + windows;
    }
    assert products[..|products|] == products;
  }

  lemma UnsortedNext(from: Date, to: Date, products: seq<Product>, p: Product)
    requires Valid(from) && Valid(to) && Listed(p) && forall q :: q in products ==> Listed(q)
    ensures Unsorted(from, to, products + [p]) == Unsorted(from, to, products) + TilesOf(from, to, p)
  {
    assert (products + [p])[..|products|] == products;
  }

  lemma NothingToCut(from: Date, to: Date, p: Product)
    requires Valid(from) && Valid(to) && Listed(p) && FirstDay(from, p) > LastDay(to, p)
    ensures TilesOf(from, to, p) == []
  {
  }

  // ---------------------------------------------------------------------
  // How often a day is asked of a product
  // ---------------------------------------------------------------------

  function One(b: bool): nat { if b then 1 else 0 }

  /** How many requests ask this source for this day. */
  function Times(requests: seq<Request>, name: string, day: int): nat {
    if requests == [] then 0
    else
      var r := requests[|requests| - 1];
      Times(requests[..|requests| - 1], name, day)
      + One(r.source == name && Valid(r.startDate) && DayNumber(r.startDate) <= day < DayNumber(r.startDate) + r.dayRange)
  }

  /** How many lines of the listing name this source and hold this day. */
  function Holdings(products: seq<Product>, name: string, day: int): nat
    requires forall p :: p in products ==> Listed(p)
  {
    if products == [] then 0
    else
      var p := products[|products| - 1];
      assert p in products && Listed(p);
      Holdings(products[..|products| - 1], name, day)
      + One(p.source == name && DayNumber(p.minDate) <= day <= DayNumber(p.maxDate))
  }

  /** How many of the chosen families the source is an archive or a stream of. */
  function Naming(families: seq<string>, name: string): nat {
    if families == [] then 0
    else
      var f := families[|families| - 1];
      Naming(families[..|families| - 1], name) + One(name == f + "_SP" || name == f + "_NRT")
  }

  lemma {:induction false} TimesConcat(a: seq<Request>, b: seq<Request>, name: string, day: int)
    ensures Times(a + b, name, day) == Times(a, name, day) + Times(b, name, day)
    decreases |b|
  {
    hide DayNumber, Valid;
    if b == [] {
      assert a + b == a;
    } else {
      var n := |b| - 1;
      assert (a + b)[..|a + b| - 1] == a + b[..n];
      TimesConcat(a, b[..n], name, day);
    }
  }

  lemma TimesOne(r: Request, name: string, day: int)
    ensures Times([r], name, day) ==
            One(r.source == name && Valid(r.startDate) && DayNumber(r.startDate) <= day < DayNumber(r.startDate) + r.dayRange)
  {
    hide DayNumber, Valid;
    assert [r][..0] == [];
  }

  lemma {:induction false} HoldingsConcat(a: seq<Product>, b: seq<Product>, name: string, day: int)
    requires forall p :: p in a || p in b ==> Listed(p)
    ensures Holdings(a + b, name, day) == Holdings(a, name, day) + Holdings(b, name, day)
    decreases |b|
  {
    hide DayNumber, Listed;
    if b == [] {
      assert a + b == a;
    } else {
      var n := |b| - 1;
      assert (a + b)[..|a + b| - 1] == a + b[..n];
      HoldingsConcat(a, b[..n], name, day);
    }
  }

  /** Sorting does not change who is asked for what. */
  lemma {:induction false} TimesOfPermutation(a: seq<Request>, b: seq<Request>, name: string, day: int)
    requires multiset(a) == multiset(b)
    ensures Times(a, name, day) == Times(b, name, day)
    decreases |a|
  {
    hide Times;
    if a == [] {
      assert |multiset(b)| == 0 && b == [];
    } else {
      var n := |a| - 1;
      var x := a[n];
      assert a == a[..n] + [x];
      assert x in multiset(b);
      var i :| 0 <= i < |b| && b[i] == x;
      var rest := b[..i] + b[i + 1..];
      assert b == b[..i] + [x] + b[i + 1..];
      assert multiset(a) == multiset(a[..n]) + multiset{x};
      assert multiset(b) == multiset(b[..i]) + multiset{x} + multiset(b[i + 1..]);
      assert multiset(rest) == multiset(b[..i]) + multiset(b[i + 1..]);
      assert multiset(b) - multiset{x} == multiset(rest) && multiset(a) - multiset{x} == multiset(a[..n]);
      assert multiset(a[..n]) == multiset(b[..i] + b[i + 1..]);
      TimesOfPermutation(a[..n], b[..i] + b[i + 1..], name, day);
      TimesConcat(a[..n], [x], name, day);
      TimesConcat(b[..i], b[i + 1..], name, day);
      TimesConcat(b[..i] + [x], b[i + 1..], name, day);
      TimesConcat(b[..i], [x], name, day);
    }
  }

  /** The windows over a range ask their own source, once for each of its days. */
  lemma {:induction false} TilesAskOnce(source: string, first: int, last: int, name: string, day: int)
    ensures Times(Tiles(source, first, last), name, day) == One(source == name && first <= day <= last)
    decreases last - first
  {
    hide DayNumber, DateOf, Times;
    if first > last {
      NoTimes(name, day);
    } else {
      var n := if last - first + 1 < FIRMS_MAX_DAY_RANGE then last - first + 1 else FIRMS_MAX_DAY_RANGE;
      var r := Request(source, DateOf(first), n);
      TilesAskOnce(source, first + n, last, name, day);
      TimesConcat([r], Tiles(source, first + n, last), name, day);
      TimesOne(r, name, day);
      DateOfCounts(first);
    }
  }

  lemma NoTimes(name: string, day: int)
    ensures Times([], name, day) == 0
  {
  }

  lemma DateOfCounts(day: int)
    ensures Valid(DateOf(day)) && DayNumber(DateOf(day)) == day
  {
  }

  lemma {:induction false} UnsortedAsks(from: Date, to: Date, products: seq<Product>, name: string, day: int)
    requires Valid(from) && Valid(to) && forall p :: p in products ==> Listed(p)
    ensures Times(Unsorted(from, to, products), name, day) ==
            if DayNumber(from) <= day <= DayNumber(to) then Holdings(products, name, day) else 0
    decreases |products|
  {
    hide DayNumber, Tiles, Times;
    if products == [] {
      NoTimes(name, day);
    } else {
      var n := |products| - 1;
      UnsortedAsks(from, to, products[..n], name, day);
      TimesConcat(Unsorted(from, to, products[..n]), TilesOf(from, to, products[n]), name, day);
      TilesAskOnce(products[n].source, FirstDay(from, products[n]), LastDay(to, products[n]), name, day);
    }
  }

  lemma {:induction false} FamilyHoldings(family: string, availability: seq<Product>, name: string, day: int)
    requires forall p :: p in availability ==> Listed(p)
    ensures Holdings(OfFamily(family, availability), name, day) ==
            One(name == family + "_SP" || name == family + "_NRT") * Holdings(availability, name, day)
    decreases |availability|
  {
    hide DayNumber, Listed;
    if availability != [] {
      var n := |availability| - 1;
      FamilyHoldings(family, availability[..n], name, day);
      if InFamily(availability[n], family) {
        var before := OfFamily(family, availability[..n]);
        assert (before + [availability[n]])[..|before|] == before;
      }
    }
  }

  lemma {:induction false} SelectedHoldings(families: seq<string>, availability: seq<Product>, name: string, day: int)
    requires forall p :: p in availability ==> Listed(p)
    ensures Holdings(Selected(families, availability), name, day) ==
            Naming(families, name) * Holdings(availability, name, day)
    decreases |families|
  {
    hide Holdings, OfFamily, Selected, Listed;
    if families == [] {
      NoneSelected(availability);
      NothingHeld(name, day);
    } else {
      var n := |families| - 1;
      SelectedHoldings(families[..n], availability, name, day);
      FamilyHoldings(families[n], availability, name, day);
      SelectedSplits(families, availability);
      HoldingsConcat(Selected(families[..n], availability), OfFamily(families[n], availability), name, day);
      OneMoreTimes(Naming(families[..n], name), Holdings(availability, name, day));
    }
  }

  lemma NothingHeld(name: string, day: int)
    ensures Holdings([], name, day) == 0
  {
  }

  /** A day of the range is asked of a source once for every line of the listing
      that holds it and every chosen family that names it; no other day is asked. */
  ghost predicate AsksEachProduct(plan: seq<Request>, from: Date, to: Date, families: seq<string>,
                                  availability: seq<Product>)
    requires Valid(from) && Valid(to) && forall p :: p in availability ==> Listed(p)
  {
    forall name: string, day: int ::
      Times(plan, name, day) ==
      if DayNumber(from) <= day <= DayNumber(to)
      then Naming(families, name) * Holdings(availability, name, day) else 0
  }

  lemma PlanAsksEachProduct(plan: seq<Request>, from: Date, to: Date, families: seq<string>, availability: seq<Product>)
    requires Valid(from) && Valid(to) && forall p :: p in availability ==> Listed(p)
    requires multiset(plan) == multiset(Unsorted(from, to, Selected(families, availability)))
    ensures AsksEachProduct(plan, from, to, families, availability)
  {
    hide DayNumber, Times, Holdings, Naming, Unsorted, Selected, Listed;
    forall name: string, day: int
      ensures Times(plan, name, day) ==
              if DayNumber(from) <= day <= DayNumber(to)
              then Naming(families, name) * Holdings(availability, name, day) else 0
    {
      TimesOfPermutation(plan, Unsorted(from, to, Selected(families, availability)), name, day);
      UnsortedAsks(from, to, Selected(families, availability), name, day);
      SelectedHoldings(families, availability, name, day);
    }
  }

  lemma {:induction false} HeldExactly(products: seq<Product>, name: string, day: int)
    requires forall p :: p in products ==> Listed(p)
    ensures Holdings(products, name, day) > 0 <==>
            exists p :: p in products && p.source == name && DayNumber(p.minDate) <= day <= DayNumber(p.maxDate)
    ensures (forall i, j :: 0 <= i < j < |products| ==> products[i].source != products[j].source) ==>
              Holdings(products, name, day) <= 1
    decreases |products|
  {
    hide DayNumber, Listed;
    if products != [] {
      var n := |products| - 1;
      var p := products[n];
      HeldExactly(products[..n], name, day);
      assert forall q :: q in products <==> q in products[..n] || q == p;
      if forall i, j :: 0 <= i < j < |products| ==> products[i].source != products[j].source {
        forall q | q in products[..n] ensures q.source != p.source {
          var i :| 0 <= i < n && products[i] == q;
        }
      }
    }
  }

  lemma {:induction false} NamedExactly(families: seq<string>, name: string)
    ensures Naming(families, name) > 0 <==> exists f :: f in families && (name == f + "_SP" || name == f + "_NRT")
    ensures (forall i, j :: 0 <= i < j < |families| ==> families[i] != families[j]) ==> Naming(families, name) <= 1
    decreases |families|
  {
    if families != [] {
      var n := |families| - 1;
      var f := families[n];
      NamedExactly(families[..n], name);
      assert forall g :: g in families <==> g in families[..n] || g == f;
      if forall i, j :: 0 <= i < j < |families| ==> families[i] != families[j] {
        forall g | g in families[..n] ensures g != f {
          var i :| 0 <= i < n && families[i] == g;
        }
        if name == f + "_SP" || name == f + "_NRT" {
          forall g | name == g + "_SP" || name == g + "_NRT" ensures g == f {
            SuffixesDiffer(f, g, name);
          }
        }
      }
    }
  }

  lemma SuffixesDiffer(f: string, g: string, name: string)
    requires name == f + "_SP" || name == f + "_NRT"
    requires name == g + "_SP" || name == g + "_NRT"
    ensures f == g
  {
    assert "_SP"[|"_SP"| - 1] == 'P' && "_NRT"[|"_NRT"| - 1] == 'T';
    assert (f + "_SP")[|f| + 2] == 'P' && (f + "_NRT")[|f| + 3] == 'T';
    assert (g + "_SP")[|g| + 2] == 'P' && (g + "_NRT")[|g| + 3] == 'T';
    assert (f + "_SP")[..|f|] == f && (f + "_NRT")[..|f|] == f;
    assert (g + "_SP")[..|g|] == g && (g + "_NRT")[..|g|] == g;
  }

  /** So a source is asked for a day of the range iff it is a listed archive or
      stream of a chosen family that holds the day, and only once when nothing is
      listed or chosen twice. */
  lemma AskedOfWhomExactly(plan: seq<Request>, from: Date, to: Date, families: seq<string>, availability: seq<Product>,
                           name: string, day: int)
    requires Valid(from) && Valid(to) && forall p :: p in availability ==> Listed(p)
    requires AsksEachProduct(plan, from, to, families, availability)
    ensures Times(plan, name, day) > 0 <==>
            && DayNumber(from) <= day <= DayNumber(to)
            && (exists f :: f in families && (name == f + "_SP" || name == f + "_NRT"))
            && (exists p :: p in availability && p.source == name && DayNumber(p.minDate) <= day <= DayNumber(p.maxDate))
    ensures && (forall i, j :: 0 <= i < j < |availability| ==> availability[i].source != availability[j].source)
            && (forall i, j :: 0 <= i < j < |families| ==> families[i] != families[j])
            ==> Times(plan, name, day) <= 1
  {
    hide DayNumber, Times, Holdings, Naming, Listed;
    HeldExactly(availability, name, day);
    NamedExactly(families, name);
    ProductOfCounts(Naming(families, name), Holdings(availability, name, day));
  }

  lemma ProductOfCounts(a: nat, b: nat)
    ensures a * b > 0 <==> a > 0 && b > 0
    ensures a <= 1 && b <= 1 ==> a * b <= 1
  {
  }

  // ---------------------------------------------------------------------
  // The order and the size of the requests
  // ---------------------------------------------------------------------

  ghost predicate Acceptable(requests: seq<Request>) {
    forall k :: 0 <= k < |requests| ==> Valid(requests[k].startDate) && 1 <= requests[k].dayRange <= 5
  }

  lemma {:induction false} UnsortedIsAcceptable(from: Date, to: Date, products: seq<Product>)
    requires Valid(from) && Valid(to) && forall p :: p in products ==> Listed(p)
    ensures Acceptable(Unsorted(from, to, products))
    decreases |products|
  {
    hide DayNumber, Tiles;
    if products != [] {
      var n := |products| - 1;
      var p := products[n];
      UnsortedIsAcceptable(from, to, products[..n]);
      forall k | 0 <= k < |TilesOf(from, to, p)| ensures 1 <= TilesOf(from, to, p)[k].dayRange <= 5 {
        TileAt(p.source, FirstDay(from, p), LastDay(to, p), k);
      }
    }
  }

  lemma AcceptableWhenSorted(a: seq<Request>, b: seq<Request>)
    requires multiset(a) == multiset(b) && Acceptable(b)
    ensures Acceptable(a)
  {
    hide Valid;
    forall k | 0 <= k < |a| ensures Valid(a[k].startDate) && 1 <= a[k].dayRange <= 5 {
      assert a[k] in multiset(b);
      var j :| 0 <= j < |b| && b[j] == a[k];
    }
  }

  /** Earliest first, and on one day in the order of the source names. */
  ghost predicate Chronological(plan: seq<Request>, collate: (string, string) -> bool)
    requires Acceptable(plan)
  {
    forall j, k :: 0 <= j < k < |plan| ==>
                     && DayNumber(plan[j].startDate) <= DayNumber(plan[k].startDate)
                     && (DayNumber(plan[j].startDate) == DayNumber(plan[k].startDate) ==>
                           collate(plan[j].source, plan[k].source))
  }

  lemma SortedIsChronological(plan: seq<Request>, collate: (string, string) -> bool)
    requires Acceptable(plan) && SortedBy(ByDate(collate), plan)
    ensures Chronological(plan, collate)
  {
    hide DayNumber, Valid;
    forall j, k | 0 <= j < k < |plan|
      ensures DayNumber(plan[j].startDate) <= DayNumber(plan[k].startDate)
      ensures DayNumber(plan[j].startDate) == DayNumber(plan[k].startDate) ==> collate(plan[j].source, plan[k].source)
    {
      assert ByDate(collate)(plan[j], plan[k]);
      assert NotAfter(collate, plan[j], plan[k]);
      EarlierIsSmaller(plan[j].startDate, plan[k].startDate);
    }
  }

  /** Every request needed for [from, to], the right days asked of the right
      products, one to five days at a time, in chronological order: a sorted
      permutation of the windows of the selected products. */
  method PlanBackfill(from: Date, to: Date, families: seq<string>, availability: seq<Product>,
                      collate: (string, string) -> bool)
    returns (plan: Result<seq<Request>, PlanError>)
    requires Writable(from) && Writable(to)
    requires forall p :: p in availability ==> Listed(p)
    requires IsTotalPreorder(collate)
    ensures plan.Err? <==> DayNumber(from) > DayNumber(to)
    ensures plan.Ok? ==> multiset(plan.value) == multiset(Unsorted(from, to, Selected(families, availability)))
    ensures plan.Ok? ==> AsksEachProduct(plan.value, from, to, families, availability)
    ensures plan.Ok? ==> Acceptable(plan.value) && Chronological(plan.value, collate)
  {
    hide DayNumber, DateOf, AddDays, AsksEachProduct, Chronological, Acceptable;
    if DaysBetween(from, to) < 0 {
      return Err(RangeIsInverted);
    }
    var requests: seq<Request> := [];
    for f := 0 to |families|
      invariant requests == Unsorted(from, to, Selected(families[..f], availability))
    {
      var products := OfFamily(families[f], availability);
      assert families[..f + 1][..f] == families[..f];
      requests := AddProducts(from, to, Selected(families[..f], availability), products, requests);
    }
    assert families[..|families|] == families;
    ByDateIsTotal(collate);
    SortIsASortedPermutation(ByDate(collate), requests);
    plan := Ok(Sort(ByDate(collate), requests));
    PlanAsksEachProduct(plan.value, from, to, families, availability);
    UnsortedIsAcceptable(from, to, Selected(families, availability));
    AcceptableWhenSorted(plan.value, requests);
    SortedIsChronological(plan.value, collate);
  }

  /** A sorted permutation asks for the same days. */
  lemma SameDaysAsked(a: seq<Request>, b: seq<Request>, day: int)
    requires multiset(a) == multiset(b)
    ensures AskedBy(a, day) ==> AskedBy(b, day)
  {
    if AskedBy(a, day) {
      var k :| 0 <= k < |a| && Valid(a[k].startDate) && Asks(a[k], day);
      assert a[k] in multiset(a);
      assert a[k] in b;
      var j :| 0 <= j < |b| && b[j] == a[k];
      assert Asks(b[j], day);
    }
  }

  ghost predicate HeldBySome(products: seq<Product>, day: int) {
    exists p :: p in products && Listed(p) && Holds(p, day)
  }

  /** A day of the range is asked for exactly when a selected product holds it,
      and no day outside the range is. */
  lemma {:induction false} PlanAsksForHeldDays(from: Date, to: Date, products: seq<Product>, day: int)
    requires Valid(from) && Valid(to) && forall p :: p in products ==> Listed(p)
    ensures AskedBy(Unsorted(from, to, products), day) <==>
            DayNumber(from) <= day <= DayNumber(to) && HeldBySome(products, day)
    decreases |products|
  {
    if products != [] {
      var front := products[..|products| - 1];
      var p := products[|products| - 1];
      var before := Unsorted(from, to, front);
      var tiles := TilesOf(from, to, p);
      PlanAsksForHeldDays(from, to, front, day);
      TilesPartition(p.source, FirstDay(from, p), LastDay(to, p), day);
      AskedByConcat(before, tiles, day);
      assert forall q :: q in products <==> q in front || q == p;
    }
  }

  lemma AskedByConcat(a: seq<Request>, b: seq<Request>, day: int)
    ensures AskedBy(a + b, day) <==> AskedBy(a, day) || AskedBy(b, day)
  {
    if AskedBy(a, day) {
      var k :| 0 <= k < |a| && Valid(a[k].startDate) && Asks(a[k], day);
      assert (a + b)[k] == a[k];
    }
    if AskedBy(b, day) {
      var k :| 0 <= k < |b| && Valid(b[k].startDate) && Asks(b[k], day);
      assert (a + b)[|a| + k] == b[k];
    }
  }

  // ---------------------------------------------------------------------
  // Gaps
  // ---------------------------------------------------------------------

  datatype Gap = Gap(from: Date, to: Date)

  /** Which days of [from, to] nobody asks for, counted from `from`. */
  ghost function Uncovered(from: Date, days: nat, requests: seq<Request>): (flags: seq<bool>)
    requires Valid(from)
    ensures |flags| == days
    ensures forall k :: 0 <= k < days ==> flags[k] == !AskedBy(requests, DayNumber(from) + k)
  {
    seq(days, k requires 0 <= k < days => !AskedBy(requests, DayNumber(from) + k))
  }

  ghost function RangeLength(from: Date, to: Date): nat
    requires Valid(from) && Valid(to)
  {
    if DaysBetween(from, to) < 0 then 0 else DaysBetween(from, to) + 1
  }

  ghost predicate DescribeGaps(from: Date, runs: seq<Run>, gaps: seq<Gap>)
    requires Valid(from)
  {
    && |gaps| == |runs|
    && forall k :: 0 <= k < |runs| ==> gaps[k] == Gap(AddDays(from, runs[k].first), AddDays(from, runs[k].last))
  }

  method CoveredDates(requests: seq<Request>) returns (covered: set<Date>)
    requires forall k :: 0 <= k < |requests| ==> Valid(requests[k].startDate)
    ensures forall d :: Valid(d) ==> (d in covered <==> AskedBy(requests, DayNumber(d)))
  {
    hide DayNumber, DateOf, AddDays;
    covered := {};
    for n := 0 to |requests|
      invariant forall d :: Valid(d) ==> (d in covered <==> AskedBy(requests[..n], DayNumber(d)))
    {
      var r := requests[n];
      ghost var before := covered;
      for i := 0 to r.dayRange
        invariant forall d :: Valid(d) ==>
                                (d in covered <==> d in before || DayNumber(r.startDate) <= DayNumber(d) < DayNumber(r.startDate) + i)
      {
        var next := AddDays(r.startDate, i);
        AddDaysMoves(r.startDate, i);
        forall d | Valid(d) && DayNumber(d) == DayNumber(r.startDate) + i ensures d == next {
          SameDay(d, next);
        }
        covered := covered + {next};
      }
      forall d | Valid(d) ensures d in covered <==> AskedBy(requests[..n + 1], DayNumber(d)) {
        assert requests[..n + 1] == requests[..n] + [r];
        AskedByConcat(requests[..n], [r], DayNumber(d));
        assert AskedBy([r], DayNumber(d)) <==> Asks(r, DayNumber(d)) by {
          assert [r][0] == r;
        }
      }
    }
    assert requests[..|requests|] == requests;
  }

  ghost predicate GapProgress(from: Date, runs: seq<Run>, k: nat, gaps: seq<Gap>, open: Option<Date>)
    requires Valid(from)
  {
    && (open.Some? <==> ReachesEnd(runs, k))
    && if open.None? then DescribeGaps(from, runs, gaps)
       else
         && DescribeGaps(from, runs[..|runs| - 1], gaps)
         && open.value == AddDays(from, runs[|runs| - 1].first)
  }

  /** A covered day closes the open gap, if there is one, on the day before. */
  lemma GapCloses(from: Date, flags: seq<bool>, k: nat, gaps: seq<Gap>, open: Option<Date>, dayBefore: Date)
    requires Valid(from) && k < |flags| && !flags[k] && GapProgress(from, RunsOf(flags[..k]), k, gaps, open)
    requires open.Some? ==> dayBefore == AddDays(from, k - 1)
    ensures GapProgress(from, RunsOf(flags[..k + 1]), k + 1,
                        if open.Some? then gaps + [Gap(open.value, dayBefore)] else gaps, None)
  {
    hide DayNumber, DateOf, AddDays;
    LastRunIsOpen(flags[..k]);
    assert flags[..k + 1][..k] == flags[..k];
    assert RunsOf(flags[..k + 1]) == RunsOf(flags[..k]);
  }

  /** An uncovered day opens a gap, or lengthens the open one. */
  lemma GapContinues(from: Date, flags: seq<bool>, k: nat, gaps: seq<Gap>, open: Option<Date>, day: Date)
    requires Valid(from) && k < |flags| && flags[k] && GapProgress(from, RunsOf(flags[..k]), k, gaps, open)
    requires day == AddDays(from, k)
    ensures GapProgress(from, RunsOf(flags[..k + 1]), k + 1, gaps, if open.Some? then open else Some(day))
  {
    hide DayNumber, DateOf, AddDays;
    assert flags[..k + 1][..k] == flags[..k];
    var runs := RunsOf(flags[..k]);
    if ReachesEnd(runs, k) {
      assert RunsOf(flags[..k + 1]) == runs[..|runs| - 1] + [Run(runs[|runs| - 1].first, k)];
    } else {
      assert RunsOf(flags[..k + 1]) == runs + [Run(k, k)];
    }
  }

  lemma DateAt(from: Date, k: nat, d: Date)
    requires Valid(from) && Valid(d) && DayNumber(d) == DayNumber(from) + k
    ensures d == AddDays(from, k)
    ensures AddDays(d, -1) == AddDays(from, k - 1)
    ensures DayNumber(AddDays(d, 1)) == DayNumber(d) + 1
  {
    hide DayNumber, AddDays;
    AddDaysMoves(from, k);
    SameDay(d, AddDays(from, k));
    AddDaysMoves(from, k - 1);
    AddDaysMoves(d, -1);
    SameDay(AddDays(d, -1), AddDays(from, k - 1));
    AddDaysMoves(d, 1);
  }

  /** The scan over the days: one gap for each maximal run of days that no
      request asks for, from its first to its last day. */
  method CoverageGaps(from: Date, to: Date, requests: seq<Request>) returns (gaps: seq<Gap>)
    requires Valid(from) && Valid(to)
    requires forall k :: 0 <= k < |requests| ==> Valid(requests[k].startDate)
    ensures DescribeGaps(from, RunsOf(Uncovered(from, RangeLength(from, to), requests)), gaps)
  {
    hide DayNumber, DateOf, AddDays, RunsOf, GapProgress, AskedBy;
    var covered := CoveredDates(requests);
    gaps := [];
    var open: Option<Date> := None;
    ghost var flags := Uncovered(from, RangeLength(from, to), requests);
    var d := from;
    ghost var k := 0;
    NoGapYet(from, flags);
    while DaysBetween(d, to) >= 0
      invariant Valid(d) && DayNumber(d) == DayNumber(from) + k
      invariant 0 <= k <= |flags|
      invariant GapProgress(from, RunsOf(flags[..k]), k, gaps, open)
      decreases DayNumber(to) - DayNumber(d) + 1
    {
      DateAt(from, k, d);
      if d in covered {
        GapCloses(from, flags, k, gaps, open, AddDays(d, -1));
        if open.Some? {
          gaps := gaps + [Gap(open.value, AddDays(d, -1))];
        }
        open := None;
      } else {
        GapContinues(from, flags, k, gaps, open, d);
        if open.None? {
          open := Some(d);
        }
      }
      d := AddDays(d, 1);
      k := k + 1;
    }
    assert flags[..k] == flags;
    LastGap(from, to, RunsOf(flags), k, gaps, open);
    if open.Some? {
      gaps := gaps + [Gap(open.value, to)];
    }
  }

  lemma NoGapYet(from: Date, flags: seq<bool>)
    requires Valid(from)
    ensures GapProgress(from, RunsOf(flags[..0]), 0, [], None)
  {
  }

  lemma LastGap(from: Date, to: Date, runs: seq<Run>, k: nat, gaps: seq<Gap>, open: Option<Date>)
    requires Valid(from) && Valid(to) && GapProgress(from, runs, k, gaps, open)
    requires k > 0 ==> DayNumber(from) + k - 1 == DayNumber(to)
    ensures DescribeGaps(from, runs, if open.Some? then gaps + [Gap(open.value, to)] else gaps)
  {
    hide DayNumber, DateOf, AddDays;
    if open.Some? {
      AddDaysMoves(from, k - 1);
      SameDay(to, AddDays(from, k - 1));
    }
  }

  ghost predicate InSomeGap(gaps: seq<Gap>, day: int) {
    exists k :: 0 <= k < |gaps| && Valid(gaps[k].from) && Valid(gaps[k].to)
                && DayNumber(gaps[k].from) <= day <= DayNumber(gaps[k].to)
  }

  lemma GapsContainUncovered(from: Date, days: nat, requests: seq<Request>, gaps: seq<Gap>, k: nat)
    requires Valid(from) && k < days
    requires DescribeGaps(from, RunsOf(Uncovered(from, days, requests)), gaps)
    ensures InSomeGap(gaps, DayNumber(from) + k) <==> !AskedBy(requests, DayNumber(from) + k)
  {
    hide DayNumber, DateOf, AddDays;
    var flags := Uncovered(from, days, requests);
    var runs := RunsOf(flags);
    RunsOfAreMaximal(flags);
    InSomeRunIffSet(flags, runs, k);
    forall j | 0 <= j < |runs|
      ensures DayNumber(gaps[j].from) == DayNumber(from) + runs[j].first
      ensures DayNumber(gaps[j].to) == DayNumber(from) + runs[j].last
    {
      AddDaysMoves(from, runs[j].first);
      AddDaysMoves(from, runs[j].last);
    }
    if InSome(runs, k) {
      var j :| 0 <= j < |runs| && Contains(runs[j], k);
      assert DayNumber(gaps[j].from) <= DayNumber(from) + k <= DayNumber(gaps[j].to);
    }
    if InSomeGap(gaps, DayNumber(from) + k) {
      var j :| 0 <= j < |gaps| && DayNumber(gaps[j].from) <= DayNumber(from) + k <= DayNumber(gaps[j].to);
      assert Contains(runs[j], k);
    }
  }

  /** Planner and gap report are exact complements: a day of the range is
      reported as a gap iff no selected product holds it. */
  lemma GapsComplementThePlan(from: Date, to: Date, families: seq<string>, availability: seq<Product>,
                              plan: seq<Request>, gaps: seq<Gap>, day: int)
    requires Valid(from) && Valid(to) && forall p :: p in availability ==> Listed(p)
    requires multiset(plan) == multiset(Unsorted(from, to, Selected(families, availability)))
    requires DescribeGaps(from, RunsOf(Uncovered(from, RangeLength(from, to), plan)), gaps)
    requires DayNumber(from) <= day <= DayNumber(to)
    ensures InSomeGap(gaps, day) <==> !HeldBySome(Selected(families, availability), day)
  {
    hide DayNumber, AddDays, Unsorted, Selected, RunsOf;
    var requests := Unsorted(from, to, Selected(families, availability));
    SameDaysAsked(plan, requests, day);
    SameDaysAsked(requests, plan, day);
    PlanAsksForHeldDays(from, to, Selected(families, availability), day);
    GapsContainUncovered(from, RangeLength(from, to), plan, gaps, day - DayNumber(from));
  }

  /** Gaps are in order, disjoint, and never adjacent: at least one day that is
      asked for lies between two of them. */
  lemma GapsAreSeparated(from: Date, days: nat, requests: seq<Request>, gaps: seq<Gap>, j: nat, k: nat)
    requires Valid(from) && j < k < |gaps|
    requires DescribeGaps(from, RunsOf(Uncovered(from, days, requests)), gaps)
    ensures Valid(gaps[j].from) && Valid(gaps[j].to) && Valid(gaps[k].from)
    ensures DayNumber(gaps[j].from) <= DayNumber(gaps[j].to)
    ensures DayNumber(gaps[j].to) + 1 < DayNumber(gaps[k].from)
    ensures AskedBy(requests, DayNumber(gaps[j].to) + 1)
  {
    var flags := Uncovered(from, days, requests);
    var runs := RunsOf(flags);
    RunsOfAreMaximal(flags);
    RunsCannotGrow(flags, runs, j);
    assert Within(flags, runs[j]) && Within(flags, runs[k]);
    AddDaysMoves(from, runs[j].first);
    AddDaysMoves(from, runs[j].last);
    AddDaysMoves(from, runs[k].first);
  }
}
