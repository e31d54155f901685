/** The filter engine behind the menu tab: it rebuilds every fetched record
    with every section list cut down to the items that pass the free-text
    search, the allergen exclusion and every active quick filter. */
module MenuFilter {
  import opened Wrappers
  import opened Menu
  import Seqs
  import Text

  /** The filter controls: the search box, the ticked allergen codes and the
      pressed quick-filter buttons. */
  datatype FilterState = FilterState(
    searchQuery: string,
    selectedAllergens: set<string>,
    activeFilters: set<string>)

  const Vegetarian: string := "vegetarian"
  const PriceLow: string := "price-low"
  const PriceMedium: string := "price-medium"
  const Popular: string := "popular"

  /** No search text, no allergen and no quick filter. */
  predicate Inactive(state: FilterState) {
    state.searchQuery == "" && state.selectedAllergens == {} && state.activeFilters == {}
  }

  /** An empty query matches everything; otherwise the lower-cased title must
      contain the lower-cased query. */
  predicate MatchesSearch(host: Host, query: string, item: MenuItem) {
    query == "" || Text.Includes(host.lower(item.title), host.lower(query))
  }

  /** One comma-separated piece of an allergen list, trimmed and with its
      first `*` (the trace marker) removed. */
  function AllergenCode(piece: string): string {
    Text.RemoveFirst(Text.Trim(piece), '*')
  }

  /** A code with no white space at its ends and no trace marker is its own
      allergen code. */
  lemma AllergenCodeClean(piece: string)
    requires |piece| == 0 || (!Text.IsWhiteSpace(piece[0]) && !Text.IsWhiteSpace(piece[|piece| - 1]))
    requires '*' !in piece
    ensures AllergenCode(piece) == piece
  {
    Text.TrimClean(piece);
    Text.RemoveFirstSpec(piece, '*');
  }

  /** The item names an allergen the user avoids. Nothing is restricted when
      no allergen is ticked, and an item whose list is empty or `-` never is. */
  predicate HasRestrictedAllergens(selected: set<string>, item: MenuItem) {
    && |selected| > 0
    && item.allergens != ""
    && item.allergens != "-"
    && exists piece | piece in Text.Split(item.allergens, ',') :: AllergenCode(piece) in selected
  }

  /** One quick filter applied to an item of section `section`; a key the
      page does not know lets every item through. */
  predicate PassesQuickFilter(host: Host, favorites: seq<Favorite>, filter: string, section: string, item: MenuItem) {
    var price := PriceOf(host, item);
    if filter == Vegetarian then section == VegeMenu
    else if filter == PriceLow then price.Some? && price.value <= 1.0
    else if filter == PriceMedium then price.Some? && 1.0 < price.value <= 2.0
    else if filter == Popular then IsFavoriteId(favorites, item.id)
    else true
  }

  /** `Array.from(activeFilters).every(...)`: all active quick filters pass. */
  predicate MatchesFilters(host: Host, favorites: seq<Favorite>, active: set<string>, section: string, item: MenuItem) {
    forall f | f in active :: PassesQuickFilter(host, favorites, f, section, item)
  }

  /** The item is shown in the filtered menu. */
  predicate Keep(host: Host, state: FilterState, favorites: seq<Favorite>, section: string, item: MenuItem) {
    && MatchesSearch(host, state.searchQuery, item)
    && !HasRestrictedAllergens(state.selectedAllergens, item)
    && MatchesFilters(host, favorites, state.activeFilters, section, item)
  }

  /** The inclusion test for the items of one section. */
  function KeepIn(host: Host, state: FilterState, favorites: seq<Favorite>, section: string): MenuItem -> bool {
    item => Keep(host, state, favorites, section, item)
  }

  /** `out` is `inp` with its list (a `null` one counting as empty) cut down
      to exactly the items that pass, in their original order and unchanged:
      a subsequence made only of passing items and holding all of them. */
  ghost predicate SectionFiltered(host: Host, state: FilterState, favorites: seq<Favorite>, out: SectionEntry, inp: SectionEntry) {
    var kept := SectionItems(out);
    var keep := KeepIn(host, state, favorites, inp.key);
    && out.key == inp.key
    && out.items.Some?
    && Seqs.IsSubsequence(kept, SectionItems(inp))
    && (forall x :: x in kept ==> keep(x))
    && |kept| == Seqs.Count(keep, SectionItems(inp))
  }

  ghost predicate MealFiltered(host: Host, state: FilterState, favorites: seq<Favorite>, out: MealEntry, inp: MealEntry) {
    && out.key == inp.key
    && |out.sections| == |inp.sections|
    && forall j :: 0 <= j < |inp.sections| ==> SectionFiltered(host, state, favorites, out.sections[j], inp.sections[j])
  }

  /** Same record, same meals under the same keys, each meal filtered. */
  ghost predicate DayFiltered(host: Host, state: FilterState, favorites: seq<Favorite>, out: Day, inp: Day) {
    && out.id == inp.id
    && out.title == inp.title
    && out.menuDate == inp.menuDate
    && |out.meals| == |inp.meals|
    && forall k :: 0 <= k < |inp.meals| ==> MealFiltered(host, state, favorites, out.meals[k], inp.meals[k])
  }

  /** `items?.filter(...) || []` for one `[sectionType, items]` entry. */
  function FilterSection(host: Host, state: FilterState, favorites: seq<Favorite>, e: SectionEntry): (r: SectionEntry)
    ensures SectionFiltered(host, state, favorites, r, e)
  {
    var keep := KeepIn(host, state, favorites, e.key);
    Seqs.FilterLength(keep, SectionItems(e));
    SectionEntry(e.key, Some(Seqs.Filter(keep, SectionItems(e))))
  }

  function FilterMeal(host: Host, state: FilterState, favorites: seq<Favorite>, m: MealEntry): (r: MealEntry)
    ensures MealFiltered(host, state, favorites, r, m)
  {
    MealEntry(m.key, seq(|m.sections|, j requires 0 <= j < |m.sections| => FilterSection(host, state, favorites, m.sections[j])))
  }

  function FilterDay(host: Host, state: FilterState, favorites: seq<Favorite>, d: Day): (r: Day)
    ensures DayFiltered(host, state, favorites, r, d)
  {
    d.(meals := seq(|d.meals|, k requires 0 <= k < |d.meals| => FilterMeal(host, state, favorites, d.meals[k])))
  }

  /** `filteredMenuData`: one output record per input record, each keeping
      its fields, meal keys and section keys, every list filtered. */
  function FilterMenu(host: Host, state: FilterState, favorites: seq<Favorite>, days: seq<Day>): (r: seq<Day>)
    ensures |r| == |days|
    ensures forall i :: 0 <= i < |days| ==> DayFiltered(host, state, favorites, r[i], days[i])
  {
    seq(|days|, i requires 0 <= i < |days| => FilterDay(host, state, favorites, days[i]))
  }

  /** With all controls cleared every item passes (`every` over no filters
      holds), so every list comes back whole. */
  lemma InactiveKeepsAll(host: Host, state: FilterState, favorites: seq<Favorite>, section: string, item: MenuItem)
    requires Inactive(state)
    ensures Keep(host, state, favorites, section, item)
  {
  }

  /** A section filtered under cleared controls holds its original list. */
  lemma {:induction false} InactiveSectionUnchanged(host: Host, state: FilterState, favorites: seq<Favorite>, out: SectionEntry, inp: SectionEntry)
    requires Inactive(state)
    requires SectionFiltered(host, state, favorites, out, inp)
    ensures SectionItems(out) == SectionItems(inp)
  {
    var keep := KeepIn(host, state, favorites, inp.key);
    forall i | 0 <= i < |SectionItems(inp)|
      ensures keep(SectionItems(inp)[i])
    {
      InactiveKeepsAll(host, state, favorites, inp.key, SectionItems(inp)[i]);
    }
    Seqs.SubsequenceFull(SectionItems(out), SectionItems(inp));
  }

  /** With search, allergens and quick filters all cleared, every section
      list of the filtered menu equals the original one. */
  lemma FilterMenuInactive(host: Host, state: FilterState, favorites: seq<Favorite>, days: seq<Day>)
    requires Inactive(state)
    ensures var r := FilterMenu(host, state, favorites, days);
      forall i, k, j ::
        0 <= i < |days| && 0 <= k < |days[i].meals| && 0 <= j < |days[i].meals[k].sections| ==>
          SectionItems(r[i].meals[k].sections[j]) == SectionItems(days[i].meals[k].sections[j])
  {
    var r := FilterMenu(host, state, favorites, days);
    forall i, k, j |
      0 <= i < |days| && 0 <= k < |days[i].meals| && 0 <= j < |days[i].meals[k].sections|
      ensures SectionItems(r[i].meals[k].sections[j]) == SectionItems(days[i].meals[k].sections[j])
    {
      assert DayFiltered(host, state, favorites, r[i], days[i]);
      assert MealFiltered(host, state, favorites, r[i].meals[k], days[i].meals[k]);
      InactiveSectionUnchanged(host, state, favorites, r[i].meals[k].sections[j], days[i].meals[k].sections[j]);
    }
  }

  /** Some piece at a position of `pieces` gives a ticked code. */
  predicate CodeTicked(selected: set<string>, pieces: seq<string>) {
    exists i :: 0 <= i < |pieces| && AllergenCode(pieces[i]) in selected
  }

  /** The allergen rule in full: an item is excluded for its allergens exactly
      when some allergen is ticked, its list is neither empty nor `-`, and one
      of its comma-separated codes, trimmed and without the trace marker, is
      ticked. */
  lemma AllergenRule(selected: set<string>, item: MenuItem)
    ensures (item.allergens == "" || item.allergens == "-") ==> !HasRestrictedAllergens(selected, item)
    ensures selected == {} ==> !HasRestrictedAllergens(selected, item)
    ensures item.allergens != "" && item.allergens != "-" && selected != {} ==>
      (HasRestrictedAllergens(selected, item) <==> CodeTicked(selected, Text.Split(item.allergens, ',')))
  {
    if item.allergens != "" && item.allergens != "-" && selected != {} {
      var pieces := Text.Split(item.allergens, ',');
      assert |selected| > 0;
      TickedAt(selected, pieces);
    }
  }

  /** The allergen rule over the codes an allergen list is made of: with the
      list written as comma-free codes joined by commas, the item is excluded
      exactly when some allergen is ticked, the list is not the lone empty
      code nor the lone `-`, and one of its codes, trimmed and without its
      first `*`, is ticked. Every list is such a join (`Text.JoinSplit`). */
  lemma AllergenRuleCodes(selected: set<string>, codes: seq<string>, item: MenuItem)
    requires |codes| > 0 && forall i :: 0 <= i < |codes| ==> ',' !in codes[i]
    requires item.allergens == Text.Join(codes, ',')
    ensures HasRestrictedAllergens(selected, item) <==>
      selected != {} && codes != [""] && codes != ["-"] && CodeTicked(selected, codes)
  {
    LoneCodes(codes);
    AllergenRule(selected, item);
    Text.SplitJoin(codes, ',');
  }

  /** A join of comma-free codes is empty, or `-`, only for that lone code. */
  lemma LoneCodes(codes: seq<string>)
    requires |codes| > 0 && forall i :: 0 <= i < |codes| ==> ',' !in codes[i]
    ensures Text.Join(codes, ',') == "" <==> codes == [""]
    ensures Text.Join(codes, ',') == "-" <==> codes == ["-"]
  {
    Text.SplitJoin(codes, ',');
    assert Text.Split("", ',') == [""];
    var dash := "-";
    assert dash[1..] == "" && [dash[0]] == dash && dash[0] != ',';
    assert Text.Split(dash[1..], ',') == [""];
    assert [dash[0]] + "" == dash;
    assert Text.Split(dash, ',') == [dash];
  }

  /** Some piece gives a ticked code exactly when some position does. */
  lemma TickedAt(selected: set<string>, pieces: seq<string>)
    ensures (exists piece | piece in pieces :: AllergenCode(piece) in selected) <==> CodeTicked(selected, pieces)
  {
    if exists piece | piece in pieces :: AllergenCode(piece) in selected {
      var piece :| piece in pieces && AllergenCode(piece) in selected;
      var i :| 0 <= i < |pieces| && pieces[i] == piece;
      assert AllergenCode(pieces[i]) in selected;
    }
    if CodeTicked(selected, pieces) {
      var i :| 0 <= i < |pieces| && AllergenCode(pieces[i]) in selected;
      assert pieces[i] in pieces;
    }
  }

  /** Ticking more allergens never brings an excluded item back. */
  lemma AllergenMonotone(selected: set<string>, more: set<string>, item: MenuItem)
    requires selected <= more
    requires HasRestrictedAllergens(selected, item)
    ensures HasRestrictedAllergens(more, item)
  {
    var piece :| piece in Text.Split(item.allergens, ',') && AllergenCode(piece) in selected;
    assert AllergenCode(piece) in more;
  }

  /** Quick filters combine by conjunction: an item passes a union of filter
      sets exactly when it passes each part, and an unknown key changes nothing. */
  lemma QuickFiltersConjunction(host: Host, favorites: seq<Favorite>, a: set<string>, b: set<string>, section: string, item: MenuItem)
    ensures MatchesFilters(host, favorites, a + b, section, item) <==>
      MatchesFilters(host, favorites, a, section, item) && MatchesFilters(host, favorites, b, section, item)
    ensures forall k :: k !in {Vegetarian, PriceLow, PriceMedium, Popular} ==>
      (MatchesFilters(host, favorites, a + {k}, section, item) <==> MatchesFilters(host, favorites, a, section, item))
  {
    forall k | k !in {Vegetarian, PriceLow, PriceMedium, Popular}
      ensures MatchesFilters(host, favorites, a + {k}, section, item) <==> MatchesFilters(host, favorites, a, section, item)
    {
      assert PassesQuickFilter(host, favorites, k, section, item);
    }
  }

  /** Each recognised quick filter on its own. A price `parseFloat` cannot
      read fails both price filters; the two price bands exclude each other. */
  lemma QuickFilterRules(host: Host, favorites: seq<Favorite>, section: string, item: MenuItem)
    ensures MatchesFilters(host, favorites, {Vegetarian}, section, item) <==> section == VegeMenu
    ensures MatchesFilters(host, favorites, {PriceLow}, section, item) <==>
      PriceOf(host, item).Some? && PriceOf(host, item).value <= 1.0
    ensures MatchesFilters(host, favorites, {PriceMedium}, section, item) <==>
      PriceOf(host, item).Some? && 1.0 < PriceOf(host, item).value <= 2.0
    ensures MatchesFilters(host, favorites, {Popular}, section, item) <==>
      exists i :: 0 <= i < |favorites| && favorites[i].item.id == item.id
    ensures MatchesFilters(host, favorites, {}, section, item)
    ensures PriceOf(host, item).None? ==>
      !MatchesFilters(host, favorites, {PriceLow}, section, item) && !MatchesFilters(host, favorites, {PriceMedium}, section, item)
    ensures !MatchesFilters(host, favorites, {PriceLow, PriceMedium}, section, item)
  {
    assert PassesQuickFilter(host, favorites, Vegetarian, section, item) <==> section == VegeMenu;
    assert PriceLow in {PriceLow, PriceMedium} && PriceMedium in {PriceLow, PriceMedium};
  }

  /** A section of one item keeps it exactly when it passes. */
  lemma SectionOfOne(host: Host, state: FilterState, favorites: seq<Favorite>, e: SectionEntry)
    requires |SectionItems(e)| == 1
    ensures SectionItems(FilterSection(host, state, favorites, e)) ==
      if Keep(host, state, favorites, e.key, SectionItems(e)[0]) then SectionItems(e) else []
  {
    var keep := KeepIn(host, state, favorites, e.key);
    assert SectionItems(e)[1..] == [];
    assert Seqs.Filter(keep, SectionItems(e)[1..]) == [];
    assert [SectionItems(e)[0]] == SectionItems(e);
  }

  /** A soup listing `A,G` names allergen `A`. */
  lemma ListsA(item: MenuItem)
    requires item.allergens == "A,G"
    ensures HasRestrictedAllergens({"A"}, item)
  {
    assert Text.Join(["A", "G"], ',') == "A,G";
    Text.SplitJoin(["A", "G"], ',');
    AllergenCodeClean("A");
    assert "A" in Text.Split(item.allergens, ',');
  }

  /** One record whose lunch menu holds a soup with allergens `A,G`:
      avoiding `A` empties the list, and avoiding nothing keeps the soup. */
  lemma SoupExample(host: Host, id: Id, favorites: seq<Favorite>, day: int, date: string)
    ensures var soup := MenuItem(id, "Juha", "0.80", "A,G", None);
      var days := [Day(day, "Restoran", date, [MealEntry("rucak", [SectionEntry("menu", Some([soup]))])])];
      && SectionItems(FilterMenu(host, FilterState("", {"A"}, {}), favorites, days)[0].meals[0].sections[0]) == []
      && SectionItems(FilterMenu(host, FilterState("", {}, {}), favorites, days)[0].meals[0].sections[0]) == [soup]
  {
    var soup := MenuItem(id, "Juha", "0.80", "A,G", None);
    var entry := SectionEntry("menu", Some([soup]));
    var days := [Day(day, "Restoran", date, [MealEntry("rucak", [entry])])];
    var avoidA := FilterState("", {"A"}, {});
    var none := FilterState("", {}, {});
    assert FilterMenu(host, avoidA, favorites, days)[0].meals[0].sections[0] == FilterSection(host, avoidA, favorites, entry);
    assert FilterMenu(host, none, favorites, days)[0].meals[0].sections[0] == FilterSection(host, none, favorites, entry);
    ListsA(soup);
    SectionOfOne(host, avoidA, favorites, entry);
    InactiveKeepsAll(host, none, favorites, "menu", soup);
    SectionOfOne(host, none, favorites, entry);
  }
}
