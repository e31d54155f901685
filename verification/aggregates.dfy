/** The derived figures the page shows: the statistics cards over the fetched
    menu, the four-band price chart, the five cheapest items, and the
    favourites breakdown by restaurant and by price band. */
module Aggregates {
  import opened Wrappers
  import opened Menu
  import Sorting
  import Seqs

  // ---------------------------------------------------------------------
  // Statistics cards

  /** Running totals of the statistics loop: items, vegetarian items, items
      with a non-empty price, and the sum of their parsed prices (`None`
      once a NaN has been added). */
  datatype Tally = Tally(items: nat, veg: nat, priced: nat, sum: Option<real>)

  const Zero: Tally := Tally(0, 0, 0, Some(0.0))

  /** Floating-point addition with NaN absorbing. */
  function AddPrice(a: Option<real>, b: Option<real>): (r: Option<real>)
    ensures r.Some? <==> a.Some? && b.Some?
  {
    if a.Some? && b.Some? then Some(a.value + b.value) else None
  }

  function Plus(a: Tally, b: Tally): Tally {
    Tally(a.items + b.items, a.veg + b.veg, a.priced + b.priced, AddPrice(a.sum, b.sum))
  }

  /** `items.forEach(item => { if (item.price) { totalPrice += parseFloat(item.price); priceCount++ } })`:
      the number of items with a non-empty price, and their sum. */
  function PricedCount(items: seq<MenuItem>): (n: nat)
    ensures n <= |items|
  {
    if |items| == 0 then 0
    else (if items[0].price != "" then 1 else 0) + PricedCount(items[1..])
  }

  function PricedSum(host: Host, items: seq<MenuItem>): Option<real> {
    if |items| == 0 then Some(0.0)
    else AddPrice(if items[0].price != "" then PriceOf(host, items[0]) else Some(0.0), PricedSum(host, items[1..]))
  }

  /** One `[sectionType, items]` entry: a `null` list adds nothing, otherwise
      `items.length` is added to the item count, and to the vegetarian count
      when the section is `vege_menu`. */
  function SectionTally(host: Host, e: SectionEntry): Tally {
    match e.items
    case None => Zero
    case Some(items) =>
      Tally(|items|, if e.key == VegeMenu then |items| else 0, PricedCount(items), PricedSum(host, items))
  }

  function SectionsTally(host: Host, sections: seq<SectionEntry>): Tally {
    if |sections| == 0 then Zero
    else Plus(SectionTally(host, sections[0]), SectionsTally(host, sections[1..]))
  }

  function MealsTally(host: Host, meals: seq<MealEntry>): Tally {
    if |meals| == 0 then Zero
    else Plus(SectionsTally(host, meals[0].sections), MealsTally(host, meals[1..]))
  }

  function DaysTally(host: Host, days: seq<Day>): Tally {
    if |days| == 0 then Zero
    else Plus(MealsTally(host, days[0].meals), DaysTally(host, days[1..]))
  }

  /** What one item contributes when the walk meets it. */
  function PlacementTally(host: Host, p: Placement): Tally {
    Tally(1, if p.section == VegeMenu then 1 else 0,
      if p.item.price != "" then 1 else 0,
      if p.item.price != "" then PriceOf(host, p.item) else Some(0.0))
  }

  /** The same totals accumulated item by item over the flat walk. */
  function FlatTally(host: Host, ps: seq<Placement>): (t: Tally)
    ensures t.items == |ps|
    ensures t.veg <= t.items && t.priced <= t.items
  {
    if |ps| == 0 then Zero
    else Plus(PlacementTally(host, ps[0]), FlatTally(host, ps[1..]))
  }

  lemma PlusAssociative(a: Tally, b: Tally, c: Tally)
    ensures Plus(Plus(a, b), c) == Plus(a, Plus(b, c))
  {
  }

  lemma PlusZero(t: Tally)
    ensures Plus(Zero, t) == t
  {
  }

  lemma {:induction false} FlatTallyAppend(host: Host, a: seq<Placement>, b: seq<Placement>)
    ensures FlatTally(host, a + b) == Plus(FlatTally(host, a), FlatTally(host, b))
  {
    if |a| == 0 {
      assert a + b == b;
      PlusZero(FlatTally(host, b));
    } else {
      var ab := a + b;
      assert ab[0] == a[0];
      assert ab[1..] == a[1..] + b;
      FlatTallyAppend(host, a[1..], b);
      PlusAssociative(PlacementTally(host, a[0]), FlatTally(host, a[1..]), FlatTally(host, b));
    }
  }

  lemma {:induction false} SectionTallyFlat(host: Host, e: SectionEntry, restaurant: string)
    ensures SectionTally(host, e) == FlatTally(host, SectionPlacements(e, restaurant))
  {
    match e.items
    case None =>
    case Some(items) => ItemsTallyFlat(host, e.key, items, restaurant);
  }

  lemma {:induction false} ItemsTallyFlat(host: Host, key: string, items: seq<MenuItem>, restaurant: string)
    ensures var ps := seq(|items|, i requires 0 <= i < |items| => Placement(items[i], key, restaurant));
      FlatTally(host, ps) == Tally(|items|, if key == VegeMenu then |items| else 0, PricedCount(items), PricedSum(host, items))
  {
    var ps := seq(|items|, i requires 0 <= i < |items| => Placement(items[i], key, restaurant));
    if |items| > 0 {
      var rest := seq(|items[1..]|, i requires 0 <= i < |items[1..]| => Placement(items[1..][i], key, restaurant));
      assert ps[1..] == rest;
      ItemsTallyFlat(host, key, items[1..], restaurant);
    }
  }

  lemma {:induction false} SectionsTallyFlat(host: Host, sections: seq<SectionEntry>, restaurant: string)
    ensures SectionsTally(host, sections) == FlatTally(host, SectionsPlacements(sections, restaurant))
  {
    if |sections| > 0 {
      SectionTallyFlat(host, sections[0], restaurant);
      SectionsTallyFlat(host, sections[1..], restaurant);
      FlatTallyAppend(host, SectionPlacements(sections[0], restaurant), SectionsPlacements(sections[1..], restaurant));
    }
  }

  lemma {:induction false} MealsTallyFlat(host: Host, meals: seq<MealEntry>, restaurant: string)
    ensures MealsTally(host, meals) == FlatTally(host, MealsPlacements(meals, restaurant))
  {
    if |meals| > 0 {
      SectionsTallyFlat(host, meals[0].sections, restaurant);
      MealsTallyFlat(host, meals[1..], restaurant);
      FlatTallyAppend(host, SectionsPlacements(meals[0].sections, restaurant), MealsPlacements(meals[1..], restaurant));
    }
  }

  /** The statistics loop's totals equal the item-by-item totals over the
      flat walk the chart and the cheapest list also use. */
  lemma {:induction false} DaysTallyFlat(host: Host, days: seq<Day>)
    ensures DaysTally(host, days) == FlatTally(host, Placements(days))
  {
    if |days| > 0 {
      MealsTallyFlat(host, days[0].meals, days[0].title);
      DaysTallyFlat(host, days[1..]);
      FlatTallyAppend(host, MealsPlacements(days[0].meals, days[0].title), Placements(days[1..]));
    }
  }

  /** The statistics loop counts every item once, and the vegetarian ones
      among them. */
  lemma DaysTallyCounts(host: Host, days: seq<Day>)
    ensures DaysTally(host, days).items == |AllItems(days)|
    ensures DaysTally(host, days).veg <= DaysTally(host, days).items
  {
    DaysTallyFlat(host, days);
    var flat := FlatTally(host, Placements(days));
    assert flat.items == |Placements(days)|;
  }

  /** The statistics cards. `None` stands for NaN. */
  datatype Statistics = Statistics(
    totalItems: nat,
    vegItems: nat,
    avgPrice: Option<real>,
    restaurantsCount: nat,
    monthlyCost: Option<real>)

  /** Working days in a month, the factor of the monthly cost estimate. */
  const WorkingDays: real := 22.0

  function Average(t: Tally): Option<real> {
    if t.priced == 0 then Some(0.0)
    else if t.sum.None? then None
    else Some(t.sum.value / t.priced as real)
  }

  /** The item sits in the vegetarian section. */
  predicate IsVege(p: Placement) {
    p.section == VegeMenu
  }

  /** The item has a non-empty price string. */
  predicate IsPriced(p: Placement) {
    p.item.price != ""
  }

  /** Some item has a non-empty price that `parseFloat` cannot read. */
  predicate SomeUnparsable(host: Host, ps: seq<Placement>) {
    exists i :: 0 <= i < |ps| && IsPriced(ps[i]) && PriceOf(host, ps[i].item).None?
  }

  /** The sum of the parsed prices of the priced items (an unreadable one
      adding 0). */
  function PriceTotal(host: Host, ps: seq<Placement>): real {
    if |ps| == 0 then 0.0
    else (if IsPriced(ps[0]) then PriceOf(host, ps[0].item).GetOr(0.0) else 0.0) + PriceTotal(host, ps[1..])
  }

  /** The flat tally in the walk's own terms: the vegetarian and priced items
      are counted, the sum is NaN exactly when some priced item is
      unreadable, and otherwise it is the total of the prices. */
  lemma FlatTallySpec(host: Host, ps: seq<Placement>)
    ensures FlatTally(host, ps).veg == Seqs.Count(IsVege, ps)
    ensures FlatTally(host, ps).priced == Seqs.Count(IsPriced, ps)
    ensures FlatTally(host, ps).sum.None? <==> SomeUnparsable(host, ps)
    ensures FlatTally(host, ps).sum.Some? ==> FlatTally(host, ps).sum.value == PriceTotal(host, ps)
  {
    FlatTallyCounts(host, ps);
    FlatTallySum(host, ps);
  }

  lemma {:induction false} FlatTallyCounts(host: Host, ps: seq<Placement>)
    ensures FlatTally(host, ps).veg == Seqs.Count(IsVege, ps)
    ensures FlatTally(host, ps).priced == Seqs.Count(IsPriced, ps)
  {
    if |ps| > 0 {
      FlatTallyCounts(host, ps[1..]);
    }
  }

  lemma {:induction false} FlatTallySum(host: Host, ps: seq<Placement>)
    ensures FlatTally(host, ps).sum.None? <==> SomeUnparsable(host, ps)
    ensures FlatTally(host, ps).sum.Some? ==> FlatTally(host, ps).sum.value == PriceTotal(host, ps)
  {
    if |ps| > 0 {
      var tail := ps[1..];
      FlatTallySum(host, tail);
      UnparsableCons(host, ps);
    }
  }

  /** An unreadable priced item is the head or one of the tail. */
  lemma UnparsableCons(host: Host, ps: seq<Placement>)
    requires |ps| > 0
    ensures SomeUnparsable(host, ps) <==>
      (IsPriced(ps[0]) && PriceOf(host, ps[0].item).None?) || SomeUnparsable(host, ps[1..])
  {
    var tail := ps[1..];
    if SomeUnparsable(host, tail) {
      var i :| 0 <= i < |tail| && IsPriced(tail[i]) && PriceOf(host, tail[i].item).None?;
      assert ps[i + 1] == tail[i];
    }
    if SomeUnparsable(host, ps) && !(IsPriced(ps[0]) && PriceOf(host, ps[0].item).None?) {
      var i :| 0 <= i < |ps| && IsPriced(ps[i]) && PriceOf(host, ps[i].item).None?;
      assert i > 0 && tail[i - 1] == ps[i];
    }
  }

  /** The mean of a tally: 0 with nothing priced, NaN when the sum is, and
      otherwise the total over the count. */
  lemma AverageSpec(t: Tally, total: real, unparsable: bool)
    requires t.sum.None? <==> unparsable
    requires t.sum.Some? ==> t.sum.value == total
    ensures t.priced == 0 ==> Average(t) == Some(0.0)
    ensures t.priced > 0 ==> (Average(t).None? <==> unparsable)
    ensures t.priced > 0 && Average(t).Some? ==> Average(t).value == total / t.priced as real
  {
  }

  /** The statistics loop's totals in the walk's own terms. */
  lemma DaysTallySpec(host: Host, days: seq<Day>)
    ensures var t := DaysTally(host, days);
      && t.veg == Seqs.Count(IsVege, Placements(days))
      && t.priced == Seqs.Count(IsPriced, Placements(days))
      && (t.sum.None? <==> SomeUnparsable(host, Placements(days)))
      && (t.sum.Some? ==> t.sum.value == PriceTotal(host, Placements(days)))
  {
    DaysTallyFlat(host, days);
    FlatTallySpec(host, Placements(days));
  }

  /** `avg` is the page's average price over the walk `ps`: 0 when no item
      has a price, NaN when some priced item is unreadable, and otherwise
      the total of the prices over the number of priced items. */
  predicate MeanOfPriced(host: Host, ps: seq<Placement>, avg: Option<real>) {
    var n := Seqs.Count(IsPriced, ps);
    && (n == 0 ==> avg == Some(0.0))
    && (n > 0 ==> (avg.None? <==> SomeUnparsable(host, ps)))
    && (n > 0 && avg.Some? ==> avg.value == PriceTotal(host, ps) / n as real)
  }

  /** What the statistics loop's totals say about the menu. */
  lemma StatisticsFacts(host: Host, days: seq<Day>)
    ensures var t := DaysTally(host, days);
      var ps := Placements(days);
      var n := Seqs.Count(IsPriced, ps);
      && t.items == |AllItems(days)|
      && t.veg == Seqs.Count(IsVege, ps)
      && t.veg <= t.items
      && MeanOfPriced(host, ps, Average(t))
  {
    var t := DaysTally(host, days);
    DaysTallyCounts(host, days);
    DaysTallySpec(host, days);
    AverageSpec(t, PriceTotal(host, Placements(days)), SomeUnparsable(host, Placements(days)));
  }

  /** The `statistics` memo of the page: every item is counted, the
      vegetarian count is the number of `vege_menu` items, the average is
      the mean of the non-empty prices (0 when there are none, NaN when one
      of them is unreadable), and the monthly cost is 22 times it. */
  function ComputeStatistics(host: Host, days: seq<Day>): (s: Statistics)
    ensures s.totalItems == |AllItems(days)|
    ensures s.vegItems <= s.totalItems
    ensures s.restaurantsCount == |days|
    ensures s.monthlyCost == if s.avgPrice.Some? then Some(s.avgPrice.value * WorkingDays) else None
  {
    var t := DaysTally(host, days);
    DaysTallyCounts(host, days);
    var avg := Average(t);
    Statistics(t.items, t.veg, avg, |days|, if avg.Some? then Some(avg.value * WorkingDays) else None)
  }

  /** The vegetarian count on the statistics card is the number of items in
      vegetarian sections, and the average is the mean of the non-empty
      prices, 0 when there are none and NaN when one is unreadable. */
  lemma StatisticsMeaning(host: Host, days: seq<Day>)
    ensures ComputeStatistics(host, days).vegItems == Seqs.Count(IsVege, Placements(days))
    ensures MeanOfPriced(host, Placements(days), ComputeStatistics(host, days).avgPrice)
  {
    StatisticsFacts(host, days);
  }

  /** Two vegetarian lunch items priced 1.00 and 3.00 at one restaurant: two
      items, both vegetarian, an average of 2 and a monthly estimate of 44. */
  lemma StatisticsExample(host: Host, first: Id, second: Id)
    requires host.parseFloat("1.00") == Some(1.0) && host.parseFloat("3.00") == Some(3.0)
    ensures var soup := MenuItem(first, "Juha", "1.00", "", None);
      var beans := MenuItem(second, "Grah", "3.00", "", None);
      var days := [Day(0, "Restoran", "", [MealEntry("rucak", [SectionEntry(VegeMenu, Some([soup, beans]))])])];
      ComputeStatistics(host, days) == Statistics(2, 2, Some(2.0), 1, Some(44.0))
  {
    var soup := MenuItem(first, "Juha", "1.00", "", None);
    var beans := MenuItem(second, "Grah", "3.00", "", None);
    var days := [Day(0, "Restoran", "", [MealEntry("rucak", [SectionEntry(VegeMenu, Some([soup, beans]))])])];
    PairTally(host, soup, beans);
    OneSectionDay(host, days);
    assert Average(Tally(2, 2, 2, Some(4.0))) == Some(2.0);
  }

  /** A vegetarian section of two items priced 1 and 3. */
  lemma PairTally(host: Host, a: MenuItem, b: MenuItem)
    requires a.price != "" && b.price != ""
    requires PriceOf(host, a) == Some(1.0) && PriceOf(host, b) == Some(3.0)
    ensures SectionTally(host, SectionEntry(VegeMenu, Some([a, b]))) == Tally(2, 2, 2, Some(4.0))
  {
    assert [a, b][1..] == [b];
    assert PricedSum(host, [b]) == Some(3.0);
    assert PricedCount([a, b]) == 2;
  }

  /** One record holding one meal of one section tallies as that section. */
  lemma OneSectionDay(host: Host, days: seq<Day>)
    requires |days| == 1 && |days[0].meals| == 1 && |days[0].meals[0].sections| == 1
    ensures DaysTally(host, days) == SectionTally(host, days[0].meals[0].sections[0])
  {
    var sections := days[0].meals[0].sections;
    var t := SectionTally(host, sections[0]);
    assert sections[1..] == [] && days[0].meals[1..] == [] && days[1..] == [];
    PlusZeroRight(t);
    assert SectionsTally(host, sections) == t;
    assert MealsTally(host, days[0].meals) == Plus(t, Zero);
  }

  lemma PlusZeroRight(t: Tally)
    ensures Plus(t, Zero) == t
  {
  }

  /** Every item with a non-empty price parses to a number within [lo, hi]. */
  ghost predicate PricedWithin(host: Host, ps: seq<Placement>, lo: real, hi: real) {
    forall i :: 0 <= i < |ps| && ps[i].item.price != "" ==>
      PriceOf(host, ps[i].item).Some? && lo <= PriceOf(host, ps[i].item).value <= hi
  }

  /** The sum of a tally lies between `priced` times `lo` and `priced` times `hi`. */
  ghost predicate SumWithin(t: Tally, lo: real, hi: real) {
    t.sum.Some? && t.priced as real * lo <= t.sum.value <= t.priced as real * hi
  }

  lemma PlusWithin(a: Tally, b: Tally, lo: real, hi: real)
    requires SumWithin(a, lo, hi) && SumWithin(b, lo, hi)
    ensures SumWithin(Plus(a, b), lo, hi)
  {
    var p := a.priced as real;
    var q := b.priced as real;
    assert (a.priced + b.priced) as real == p + q;
    assert (p + q) * lo == p * lo + q * lo;
    assert (p + q) * hi == p * hi + q * hi;
  }

  lemma {:induction false} FlatSumBounds(host: Host, ps: seq<Placement>, lo: real, hi: real)
    requires PricedWithin(host, ps, lo, hi)
    ensures SumWithin(FlatTally(host, ps), lo, hi)
  {
    if |ps| > 0 {
      var tail := ps[1..];
      assert forall i :: 0 <= i < |tail| ==> tail[i] == ps[i + 1];
      assert PricedWithin(host, tail, lo, hi);
      FlatSumBounds(host, tail, lo, hi);
      var head := PlacementTally(host, ps[0]);
      assert SumWithin(head, lo, hi);
      PlusWithin(head, FlatTally(host, tail), lo, hi);
    }
  }

  lemma AverageWithin(sum: real, n: nat, lo: real, hi: real)
    requires n > 0
    requires n as real * lo <= sum <= n as real * hi
    ensures lo <= sum / n as real <= hi
  {
    var m := n as real;
    var a := sum / m;
    assert a * m == sum;
    assert (a - lo) * m == sum - lo * m;
    assert (hi - a) * m == hi * m - sum;
  }

  /** The average price is 0 when no item has a price. */
  lemma AverageNoPrices(host: Host, days: seq<Day>)
    requires forall i :: 0 <= i < |AllItems(days)| ==> AllItems(days)[i].price == ""
    ensures ComputeStatistics(host, days).avgPrice == Some(0.0)
  {
    var ps := Placements(days);
    DaysTallyFlat(host, days);
    assert forall i :: 0 <= i < |ps| ==> ps[i].item == AllItems(days)[i];
    NoPricedItems(host, ps);
  }

  /** When every non-empty price is a number in [lo, hi], the average price is
      a number, and it is 0 (nothing priced) or lies in [lo, hi]. */
  lemma AverageBounded(host: Host, days: seq<Day>, lo: real, hi: real)
    requires PricedWithin(host, Placements(days), lo, hi)
    ensures ComputeStatistics(host, days).avgPrice.Some?
    ensures ComputeStatistics(host, days).avgPrice == Some(0.0) ||
      lo <= ComputeStatistics(host, days).avgPrice.value <= hi
  {
    DaysTallyFlat(host, days);
    FlatSumBounds(host, Placements(days), lo, hi);
    AverageOfWithin(DaysTally(host, days), lo, hi);
  }

  lemma AverageOfWithin(t: Tally, lo: real, hi: real)
    requires SumWithin(t, lo, hi)
    ensures Average(t).Some?
    ensures Average(t) == Some(0.0) || lo <= Average(t).value <= hi
  {
    if t.priced > 0 {
      AverageWithin(t.sum.value, t.priced, lo, hi);
    }
  }

  lemma {:induction false} NoPricedItems(host: Host, ps: seq<Placement>)
    requires forall i :: 0 <= i < |ps| ==> ps[i].item.price == ""
    ensures FlatTally(host, ps).priced == 0
  {
    if |ps| > 0 {
      assert forall i :: 0 <= i < |ps[1..]| ==> ps[1..][i] == ps[i + 1];
      NoPricedItems(host, ps[1..]);
    }
  }

  // ---------------------------------------------------------------------
  // Price chart

  /** The chart's four bands: up to 1 €, up to 2 €, up to 3 €, and the rest,
      which also receives every price `parseFloat` cannot read. */
  datatype PriceRanges = PriceRanges(upTo1: nat, upTo2: nat, upTo3: nat, above3: nat)

  function Band(price: Option<real>): (b: nat)
    ensures b < 4
  {
    if price.Some? && price.value <= 1.0 then 0
    else if price.Some? && price.value <= 2.0 then 1
    else if price.Some? && price.value <= 3.0 then 2
    else 3
  }

  function AddToBand(r: PriceRanges, band: nat): PriceRanges {
    if band == 0 then r.(upTo1 := r.upTo1 + 1)
    else if band == 1 then r.(upTo2 := r.upTo2 + 1)
    else if band == 2 then r.(upTo3 := r.upTo3 + 1)
    else r.(above3 := r.above3 + 1)
  }

  function Total(r: PriceRanges): nat {
    r.upTo1 + r.upTo2 + r.upTo3 + r.above3
  }

  /** The band counts of `items`, visiting them in order. */
  function Chart(host: Host, items: seq<MenuItem>): PriceRanges {
    if |items| == 0 then PriceRanges(0, 0, 0, 0)
    else AddToBand(Chart(host, items[..|items| - 1]), Band(PriceOf(host, items[|items| - 1])))
  }

  /** The items whose price falls in band `k`. */
  function InBand(host: Host, k: nat): MenuItem -> bool {
    (item: MenuItem) => Band(PriceOf(host, item)) == k
  }

  lemma AddToBandTotal(r: PriceRanges, band: nat)
    ensures Total(AddToBand(r, band)) == Total(r) + 1
  {
  }

  /** Each bar of the chart counts exactly the items in its band, and the
      bars together count every item once. */
  lemma {:induction false} ChartCounts(host: Host, items: seq<MenuItem>)
    ensures Chart(host, items).upTo1 == Seqs.Count(InBand(host, 0), items)
    ensures Chart(host, items).upTo2 == Seqs.Count(InBand(host, 1), items)
    ensures Chart(host, items).upTo3 == Seqs.Count(InBand(host, 2), items)
    ensures Chart(host, items).above3 == Seqs.Count(InBand(host, 3), items)
    ensures Total(Chart(host, items)) == |items|
  {
    if |items| > 0 {
      var init := items[..|items| - 1];
      var last := items[|items| - 1];
      assert items == init + [last];
      ChartCounts(host, init);
      AddToBandTotal(Chart(host, init), Band(PriceOf(host, last)));
      BandCountStep(host, init, last, 0);
      BandCountStep(host, init, last, 1);
      BandCountStep(host, init, last, 2);
      BandCountStep(host, init, last, 3);
    }
  }

  /** Appending an item adds one to the count of its own band only. */
  lemma BandCountStep(host: Host, init: seq<MenuItem>, last: MenuItem, k: nat)
    ensures Seqs.Count(InBand(host, k), init + [last]) ==
      Seqs.Count(InBand(host, k), init) + (if Band(PriceOf(host, last)) == k then 1 else 0)
  {
    Seqs.CountAppend(InBand(host, k), init, [last]);
    Seqs.CountSingle(InBand(host, k), last);
  }

  /** `PriceChart`'s `priceRanges` over the fetched menu: every item of the
      statistics' total lands in exactly one bar. */
  function PriceChart(host: Host, days: seq<Day>): (r: PriceRanges)
    ensures Total(r) == ComputeStatistics(host, days).totalItems
    ensures r.above3 == Seqs.Count(InBand(host, 3), AllItems(days))
  {
    ChartCounts(host, AllItems(days));
    Chart(host, AllItems(days))
  }

  /** The band boundaries: a price of exactly 1 is in the first band, one
      just above it in the second; NaN lands in the last. */
  lemma BandBoundaries(x: real)
    ensures Band(Some(1.0)) == 0 && Band(Some(1.01)) == 1
    ensures Band(Some(2.0)) == 1 && Band(Some(3.0)) == 2 && Band(Some(3.01)) == 3
    ensures Band(None) == 3
    ensures x <= 1.0 ==> Band(Some(x)) == 0
    ensures 3.0 < x ==> Band(Some(x)) == 3
  {
  }

  // ---------------------------------------------------------------------
  // Cheapest items

  /** An item with the display name of its restaurant, as the cheapest list
      shows it. */
  datatype Listed = Listed(item: MenuItem, restaurant: string)

  /** Every item of the walk with its restaurant, in walk order. */
  function Listings(ps: seq<Placement>): (r: seq<Listed>)
    ensures |r| == |ps|
    ensures forall i :: 0 <= i < |ps| ==> r[i] == Listed(ps[i].item, ps[i].restaurant)
  {
    seq(|ps|, i requires 0 <= i < |ps| => Listed(ps[i].item, ps[i].restaurant))
  }

  /** `if (item.price)`: the item has a non-empty price string. */
  predicate HasPrice(x: Listed) {
    x.item.price != ""
  }

  /** The candidates of the cheapest list, collected item by item: exactly
      the listings of the walk with a non-empty price, in walk order. */
  function PricedListings(ps: seq<Placement>): (r: seq<Listed>)
    ensures r == Seqs.Filter(HasPrice, Listings(ps))
    ensures forall x :: x in r ==> x.item.price != ""
    ensures |r| <= |ps|
  {
    if |ps| == 0 then []
    else
      assert Listings(ps)[1..] == Listings(ps[1..]);
      if ps[0].item.price != "" then [Listed(ps[0].item, ps[0].restaurant)] + PricedListings(ps[1..])
      else PricedListings(ps[1..])
  }

  /** `parseFloat(a.price) - parseFloat(b.price)` as a ranking, NaN last. */
  function ByListedPrice(host: Host): (Listed, Listed) -> bool {
    (a: Listed, b: Listed) => PriceLe(PriceOf(host, a.item), PriceOf(host, b.item))
  }

  lemma ListedPriceTotal(host: Host)
    ensures Sorting.TotalPreorder(ByListedPrice(host))
  {
    forall x: Listed, y: Listed
      ensures ByListedPrice(host)(x, y) || ByListedPrice(host)(y, x)
    {
    }
    forall x: Listed, y: Listed, z: Listed | ByListedPrice(host)(x, y) && ByListedPrice(host)(y, z)
      ensures ByListedPrice(host)(x, z)
    {
    }
  }

  const CheapestCount: nat := 5

  /** `CheapestItems`: at most five items, each with a non-empty price, taken
      from the menu, in price order, none ranked after an item left out;
      among equal prices, the earliest in walk order, kept in that order. */
  function Cheapest(host: Host, days: seq<Day>): (r: seq<Listed>)
    ensures var candidates := Seqs.Filter(HasPrice, Listings(Placements(days)));
      && |r| == (if |candidates| < CheapestCount then |candidates| else CheapestCount)
      && (forall x :: x in r ==> x.item.price != "")
      && multiset(r) <= multiset(candidates)
      && Sorting.Sorted(ByListedPrice(host), r)
      && (forall x, y :: x in r && y in multiset(candidates) - multiset(r) ==> ByListedPrice(host)(x, y))
      && forall k :: Seqs.Filter(Sorting.TiedWith(ByListedPrice(host), k), r) <=
                     Seqs.Filter(Sorting.TiedWith(ByListedPrice(host), k), candidates)
  {
    var candidates := PricedListings(Placements(days));
    var sorted := Sorting.SortBy(ByListedPrice(host), candidates);
    ListedPriceTotal(host);
    Sorting.SortBySorted(ByListedPrice(host), candidates);
    var r := Sorting.Take(sorted, CheapestCount);
    CheapestFacts(host, candidates, sorted, r);
    CheapestStable(host, candidates);
    r
  }

  /** The stable sort keeps equal-priced candidates in walk order, so the
      list takes the earliest of them, in the order the walk meets them. */
  lemma CheapestStable(host: Host, candidates: seq<Listed>)
    ensures var r := Sorting.Take(Sorting.SortBy(ByListedPrice(host), candidates), CheapestCount);
      forall k :: Seqs.Filter(Sorting.TiedWith(ByListedPrice(host), k), r) <=
                  Seqs.Filter(Sorting.TiedWith(ByListedPrice(host), k), candidates)
  {
    ListedPriceTotal(host);
    forall k {
      Sorting.TakeStable(ByListedPrice(host), candidates, CheapestCount, k);
    }
  }

  lemma CheapestFacts(host: Host, candidates: seq<Listed>, sorted: seq<Listed>, r: seq<Listed>)
    requires multiset(sorted) == multiset(candidates)
    requires Sorting.Sorted(ByListedPrice(host), sorted)
    requires r == Sorting.Take(sorted, CheapestCount)
    requires forall x :: x in candidates ==> x.item.price != ""
    ensures forall x :: x in r ==> x.item.price != ""
    ensures multiset(r) <= multiset(candidates)
    ensures Sorting.Sorted(ByListedPrice(host), r)
    ensures forall x, y :: x in r && y in multiset(candidates) - multiset(r) ==> ByListedPrice(host)(x, y)
  {
    var n := |r|;
    assert r == sorted[..n];
    assert sorted == sorted[..n] + sorted[n..];
    assert multiset(sorted) == multiset(sorted[..n]) + multiset(sorted[n..]);
    assert multiset(candidates) - multiset(r) == multiset(sorted[n..]);
    forall x | x in r
      ensures x.item.price != ""
    {
      assert x in multiset(sorted);
      assert x in candidates;
    }
    Sorting.SortedPrefixFirst(ByListedPrice(host), sorted, n);
  }

  // ---------------------------------------------------------------------
  // Favourites analytics

  /** One entry of `restaurantCount`: a restaurant name and how many
      favourites come from it. */
  datatype RestaurantCount = RestaurantCount(name: string, count: nat)

  /** `FavoritesAnalytics`' memo: favourites per restaurant (the object's
      entries in insertion order) and per price band. */
  datatype FavoritesBreakdown = FavoritesBreakdown(
    restaurantCount: seq<RestaurantCount>,
    low: nat,
    medium: nat,
    high: nat)

  /** No restaurant name is listed twice. */
  ghost predicate DistinctNames(counts: seq<RestaurantCount>) {
    forall i, j :: 0 <= i < j < |counts| ==> counts[i].name != counts[j].name
  }

  /** `name` is a key of `restaurantCount`. */
  predicate HasName(counts: seq<RestaurantCount>, name: string) {
    exists i :: 0 <= i < |counts| && counts[i].name == name
  }

  /** `restaurantCount[name]`, 0 when absent (`|| 0`). */
  function CountOf(counts: seq<RestaurantCount>, name: string): nat {
    if |counts| == 0 then 0
    else if counts[0].name == name then counts[0].count
    else CountOf(counts[1..], name)
  }

  function SumCounts(counts: seq<RestaurantCount>): nat {
    if |counts| == 0 then 0 else counts[0].count + SumCounts(counts[1..])
  }

  /** `restaurantCount[name] = (restaurantCount[name] || 0) + 1`: the entry
      for `name` goes up by one, or a new entry is appended. */
  function Bump(counts: seq<RestaurantCount>, name: string): (r: seq<RestaurantCount>)
    ensures SumCounts(r) == SumCounts(counts) + 1
    ensures forall n :: CountOf(r, n) == CountOf(counts, n) + (if n == name then 1 else 0)
  {
    if |counts| == 0 then [RestaurantCount(name, 1)]
    else if counts[0].name == name then
      var r := [RestaurantCount(name, counts[0].count + 1)] + counts[1..];
      assert r[1..] == counts[1..];
      r
    else
      var rest := Bump(counts[1..], name);
      var r := [counts[0]] + rest;
      assert r[1..] == rest;
      r
  }

  /** Bumping adds at most `name` to the names listed. */
  lemma {:induction false} BumpHasName(counts: seq<RestaurantCount>, name: string, n: string)
    ensures HasName(Bump(counts, name), n) <==> n == name || HasName(counts, n)
  {
    var r := Bump(counts, name);
    if |counts| > 0 {
      HasNameCons(counts, n);
      HasNameCons(r, n);
      if counts[0].name == name {
        assert r[1..] == counts[1..];
      } else {
        BumpHasName(counts[1..], name, n);
        assert r[1..] == Bump(counts[1..], name);
      }
    }
  }

  /** A name is listed when the head carries it or the tail lists it. */
  lemma HasNameCons(counts: seq<RestaurantCount>, n: string)
    requires |counts| > 0
    ensures HasName(counts, n) <==> counts[0].name == n || HasName(counts[1..], n)
  {
    if HasName(counts[1..], n) {
      var i :| 0 <= i < |counts[1..]| && counts[1..][i].name == n;
      assert counts[i + 1] == counts[1..][i];
    }
    if HasName(counts, n) && counts[0].name != n {
      var i :| 0 <= i < |counts| && counts[i].name == n;
      assert counts[1..][i - 1] == counts[i];
    }
  }

  /** Bumping keeps the names distinct. */
  lemma {:induction false} BumpDistinct(counts: seq<RestaurantCount>, name: string)
    requires DistinctNames(counts)
    ensures DistinctNames(Bump(counts, name))
  {
    var r := Bump(counts, name);
    if |counts| > 0 {
      if counts[0].name == name {
        assert forall i :: 0 < i < |r| ==> r[i] == counts[i];
      } else {
        var tail := counts[1..];
        assert DistinctNames(tail) by {
          forall i, j | 0 <= i < j < |tail|
            ensures tail[i].name != tail[j].name
          {
            assert tail[i] == counts[i + 1] && tail[j] == counts[j + 1];
          }
        }
        BumpDistinct(tail, name);
        var rest := Bump(tail, name);
        assert forall i :: 0 <= i < |tail| ==> tail[i] == counts[i + 1];
        assert !HasName(tail, counts[0].name);
        BumpHasName(tail, name, counts[0].name);
        assert forall i :: 0 < i < |r| ==> r[i] == rest[i - 1];
        forall i, j | 0 <= i < j < |r|
          ensures r[i].name != r[j].name
        {
          if i == 0 {
            assert r[j] == rest[j - 1];
            assert !HasName(rest, counts[0].name);
          }
        }
      }
    }
  }

  /** The favourites band of a price: up to 1, up to 2, or anything else
      (NaN included). */
  function FavoriteBand(price: Option<real>): (b: nat)
    ensures b < 3
  {
    if price.Some? && price.value <= 1.0 then 0
    else if price.Some? && price.value <= 2.0 then 1
    else 2
  }

  /** How many favourites come from restaurant `name`. */
  function FromRestaurant(favorites: seq<Favorite>, name: string): nat {
    if |favorites| == 0 then 0
    else FromRestaurant(favorites[..|favorites| - 1], name) + (if favorites[|favorites| - 1].restaurant == name then 1 else 0)
  }

  /** The breakdown, built by visiting the favourites in list order. */
  function Breakdown(host: Host, favorites: seq<Favorite>): (r: FavoritesBreakdown)
    ensures r.low + r.medium + r.high == |favorites|
    ensures SumCounts(r.restaurantCount) == |favorites|
    ensures forall n :: CountOf(r.restaurantCount, n) == FromRestaurant(favorites, n)
  {
    if |favorites| == 0 then FavoritesBreakdown([], 0, 0, 0)
    else
      var prev := Breakdown(host, favorites[..|favorites| - 1]);
      var fav := favorites[|favorites| - 1];
      var band := FavoriteBand(PriceOf(host, fav.item));
      FavoritesBreakdown(
        Bump(prev.restaurantCount, fav.restaurant),
        prev.low + (if band == 0 then 1 else 0),
        prev.medium + (if band == 1 then 1 else 0),
        prev.high + (if band == 2 then 1 else 0))
  }

  /** Each restaurant appears once in the breakdown, and the restaurants that
      appear are exactly those some favourite comes from. */
  lemma {:induction false} BreakdownNames(host: Host, favorites: seq<Favorite>)
    ensures DistinctNames(Breakdown(host, favorites).restaurantCount)
    ensures forall n :: HasName(Breakdown(host, favorites).restaurantCount, n) <==> FromRestaurant(favorites, n) > 0
  {
    if |favorites| > 0 {
      var init := favorites[..|favorites| - 1];
      var fav := favorites[|favorites| - 1];
      var prev := Breakdown(host, init).restaurantCount;
      BreakdownNames(host, init);
      BumpDistinct(prev, fav.restaurant);
      forall n
        ensures HasName(Bump(prev, fav.restaurant), n) <==> FromRestaurant(favorites, n) > 0
      {
        BumpHasName(prev, fav.restaurant, n);
      }
    }
  }

  /** Some favourite comes from `name` exactly when the count is positive. */
  lemma {:induction false} FromRestaurantPositive(favorites: seq<Favorite>, name: string)
    ensures FromRestaurant(favorites, name) > 0 <==>
      exists i :: 0 <= i < |favorites| && favorites[i].restaurant == name
  {
    if |favorites| > 0 {
      var init := favorites[..|favorites| - 1];
      FromRestaurantPositive(init, name);
      if exists i :: 0 <= i < |favorites| && favorites[i].restaurant == name {
        var i :| 0 <= i < |favorites| && favorites[i].restaurant == name;
        if i < |init| {
          assert init[i] == favorites[i];
        }
      }
      if exists i :: 0 <= i < |init| && init[i].restaurant == name {
        var i :| 0 <= i < |init| && init[i].restaurant == name;
        assert favorites[i] == init[i];
      }
    }
  }

  /** The favourites' items, in list order. */
  function FavoriteItems(favorites: seq<Favorite>): (r: seq<MenuItem>)
    ensures |r| == |favorites| && forall i :: 0 <= i < |r| ==> r[i] == favorites[i].item
  {
    seq(|favorites|, i requires 0 <= i < |favorites| => favorites[i].item)
  }

  lemma ChartLast(host: Host, items: seq<MenuItem>)
    requires |items| > 0
    ensures Chart(host, items) == AddToBand(Chart(host, items[..|items| - 1]), Band(PriceOf(host, items[|items| - 1])))
  {
  }

  lemma BreakdownLast(host: Host, favorites: seq<Favorite>)
    requires |favorites| > 0
    ensures var prev := Breakdown(host, favorites[..|favorites| - 1]);
      var band := FavoriteBand(PriceOf(host, favorites[|favorites| - 1].item));
      var b := Breakdown(host, favorites);
      b.low == prev.low + (if band == 0 then 1 else 0) &&
      b.medium == prev.medium + (if band == 1 then 1 else 0) &&
      b.high == prev.high + (if band == 2 then 1 else 0)
  {
  }

  /** A price's favourites band is its chart band with the top two merged. */
  lemma BandsAgree(price: Option<real>)
    ensures FavoriteBand(price) == 0 <==> Band(price) == 0
    ensures FavoriteBand(price) == 1 <==> Band(price) == 1
    ensures FavoriteBand(price) == 2 <==> Band(price) >= 2
  {
  }

  /** The favourites' three bands against the chart's four: the cheap and
      middle bands are the same, the dear band is the chart's last two. */
  predicate Agrees(b: FavoritesBreakdown, c: PriceRanges) {
    b.low == c.upTo1 && b.medium == c.upTo2 && b.high == c.upTo3 + c.above3
  }

  /** Counting one more price keeps the two in step. */
  lemma BandStep(pc: PriceRanges, pb: FavoritesBreakdown, price: Option<real>, c: PriceRanges, b: FavoritesBreakdown)
    requires Agrees(pb, pc)
    requires c == AddToBand(pc, Band(price))
    requires var band := FavoriteBand(price);
      b.low == pb.low + (if band == 0 then 1 else 0) &&
      b.medium == pb.medium + (if band == 1 then 1 else 0) &&
      b.high == pb.high + (if band == 2 then 1 else 0)
    ensures Agrees(b, c)
  {
    BandsAgree(price);
  }

  /** The favourites breakdown's bands agree with the chart drawn over the
      favourites' items. */
  lemma {:induction false} BreakdownMatchesChart(host: Host, favorites: seq<Favorite>)
    ensures Agrees(Breakdown(host, favorites), Chart(host, FavoriteItems(favorites)))
  {
    if |favorites| > 0 {
      var init := favorites[..|favorites| - 1];
      var items := FavoriteItems(favorites);
      BreakdownMatchesChart(host, init);
      assert FavoriteItems(init) == items[..|items| - 1];
      ChartLast(host, items);
      BreakdownLast(host, favorites);
      BandStep(Chart(host, FavoriteItems(init)), Breakdown(host, init), PriceOf(host, favorites[|favorites| - 1].item),
        Chart(host, items), Breakdown(host, favorites));
    }
  }

  /** The order of the "top restaurants" list: larger counts first. */
  function ByCountDesc(): (RestaurantCount, RestaurantCount) -> bool {
    (a: RestaurantCount, b: RestaurantCount) => a.count >= b.count
  }

  lemma ByCountDescPreorder()
    ensures Sorting.TotalPreorder(ByCountDesc())
  {
    var le := ByCountDesc();
    assert forall x, y :: le(x, y) || le(y, x);
    assert forall x, y, z :: le(x, y) && le(y, z) ==> le(x, z);
  }

  /** The three restaurants with the most favourites, most first, none
      ranked below one left out. */
  function TopRestaurants(counts: seq<RestaurantCount>): (r: seq<RestaurantCount>)
    ensures |r| == if |counts| < 3 then |counts| else 3
    ensures multiset(r) <= multiset(counts)
    ensures forall i, j :: 0 <= i < j < |r| ==> r[i].count >= r[j].count
    ensures forall x, y :: x in r && y in multiset(counts) - multiset(r) ==> x.count >= y.count
  {
    TopInOrder(counts);
    TopOutranks(counts);
    Sorting.Take(Sorting.SortBy(ByCountDesc(), counts), 3)
  }

  lemma TopInOrder(counts: seq<RestaurantCount>)
    ensures var r := Sorting.Take(Sorting.SortBy(ByCountDesc(), counts), 3);
      forall i, j :: 0 <= i < j < |r| ==> r[i].count >= r[j].count
  {
    var le := ByCountDesc();
    var r := Sorting.Take(Sorting.SortBy(le, counts), 3);
    ByCountDescPreorder();
    Sorting.SortedTake(le, counts, 3);
    forall i, j | 0 <= i < j < |r|
      ensures r[i].count >= r[j].count
    {
      assert le(r[i], r[j]);
    }
  }

  lemma TopOutranks(counts: seq<RestaurantCount>)
    ensures var r := Sorting.Take(Sorting.SortBy(ByCountDesc(), counts), 3);
      && multiset(r) <= multiset(counts)
      && forall x, y :: x in r && y in multiset(counts) - multiset(r) ==> x.count >= y.count
  {
    var le := ByCountDesc();
    var r := Sorting.Take(Sorting.SortBy(le, counts), 3);
    ByCountDescPreorder();
    Sorting.SortedTake(le, counts, 3);
    forall x, y | x in r && y in multiset(counts) - multiset(r)
      ensures x.count >= y.count
    {
      assert le(x, y);
    }
  }
}
