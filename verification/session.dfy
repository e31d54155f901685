/** The page's own state transitions around the filter controls and the
    favourites list: the quick-filter buttons, the allergen check boxes, the
    "clear filters" button, and the "delete all data" button of the settings
    tab; and how they show in what the filter keeps. */
module Session {
  import opened Menu
  import opened MenuFilter
  import Favorites
  import Aggregates

  /** The state the filter and the favourites views derive from. */
  datatype PageState = PageState(favorites: seq<Favorite>, filters: FilterState)

  /** A quick-filter button: pressing it adds its key when it is not active
      and removes it when it is; nothing else changes. */
  function ToggleQuickFilter(state: FilterState, key: string): (r: FilterState)
    ensures r.searchQuery == state.searchQuery && r.selectedAllergens == state.selectedAllergens
    ensures key in r.activeFilters <==> key !in state.activeFilters
    ensures forall k :: k != key ==> (k in r.activeFilters <==> k in state.activeFilters)
  {
    if key in state.activeFilters then state.(activeFilters := state.activeFilters - {key})
    else state.(activeFilters := state.activeFilters + {key})
  }

  /** Pressing the same button twice leaves the controls as they were. */
  lemma ToggleQuickFilterTwice(state: FilterState, key: string)
    ensures ToggleQuickFilter(ToggleQuickFilter(state, key), key) == state
  {
    var r := ToggleQuickFilter(ToggleQuickFilter(state, key), key);
    assert r.activeFilters == state.activeFilters;
  }

  /** An allergen check box: ticked adds the code, unticked removes it. */
  function SetAllergen(state: FilterState, code: string, checked: bool): (r: FilterState)
    ensures r.searchQuery == state.searchQuery && r.activeFilters == state.activeFilters
    ensures code in r.selectedAllergens <==> checked
    ensures forall c :: c != code ==> (c in r.selectedAllergens <==> c in state.selectedAllergens)
  {
    if checked then state.(selectedAllergens := state.selectedAllergens + {code})
    else state.(selectedAllergens := state.selectedAllergens - {code})
  }

  /** Ticking one more allergen can only hide items, never show new ones. */
  lemma TickingHides(host: Host, state: FilterState, favorites: seq<Favorite>, code: string, section: string, item: MenuItem)
    requires Keep(host, SetAllergen(state, code, true), favorites, section, item)
    ensures Keep(host, state, favorites, section, item)
  {
    if HasRestrictedAllergens(state.selectedAllergens, item) {
      AllergenMonotone(state.selectedAllergens, SetAllergen(state, code, true).selectedAllergens, item);
    }
  }

  /** "Očisti sve" in the filter popover: no allergen and no quick filter is
      left; the search text stays. */
  function ClearFilters(state: FilterState): (r: FilterState)
    ensures r.searchQuery == state.searchQuery
    ensures r.selectedAllergens == {} && r.activeFilters == {}
  {
    FilterState(state.searchQuery, {}, {})
  }

  /** After clearing the filters only the search text decides what is shown. */
  lemma ClearFiltersSearchOnly(host: Host, state: FilterState, favorites: seq<Favorite>, section: string, item: MenuItem)
    ensures Keep(host, ClearFilters(state), favorites, section, item) <==> MatchesSearch(host, state.searchQuery, item)
  {
    AllergenRule({}, item);
  }

  /** "Obriši sve podatke" in the settings: no favourites, no allergen, no
      quick filter and no search text. */
  function ClearAll(page: PageState): (r: PageState)
    ensures r.favorites == [] && Inactive(r.filters)
  {
    PageState(Favorites.Clear(page.favorites), FilterState("", {}, {}))
  }

  /** After deleting all data the menu is shown in full and the favourites
      breakdown is all zero. */
  lemma ClearAllShowsEverything(host: Host, page: PageState, days: seq<Day>)
    ensures var r := ClearAll(page);
      var shown := FilterMenu(host, r.filters, r.favorites, days);
      && |shown| == |days|
      && (forall i, k, j :: 0 <= i < |days| && 0 <= k < |days[i].meals| && 0 <= j < |days[i].meals[k].sections| ==>
            SectionItems(shown[i].meals[k].sections[j]) == SectionItems(days[i].meals[k].sections[j]))
      && Aggregates.Breakdown(host, r.favorites) == Aggregates.FavoritesBreakdown([], 0, 0, 0)
  {
    var r := ClearAll(page);
    FilterMenuInactive(host, r.filters, r.favorites, days);
  }

  /** With no favourites, the "popular" quick filter hides every item. */
  lemma PopularWithoutFavorites(host: Host, state: FilterState, section: string, item: MenuItem)
    requires Popular in state.activeFilters
    ensures !Keep(host, state, [], section, item)
  {
    assert !PassesQuickFilter(host, [], Popular, section, item);
  }

  /** Toggling an item's heart flips whether the "popular" filter lets it
      through, and leaves every item with another id as it was. */
  lemma ToggleFlipsPopular(host: Host, favorites: seq<Favorite>, item: MenuItem, name: string, now: string,
                           section: string, other: MenuItem)
    requires Favorites.DistinctIds(favorites)
    ensures var r := Favorites.Toggle(favorites, item, name, now);
      PassesQuickFilter(host, r, Popular, section, item) <==> !PassesQuickFilter(host, favorites, Popular, section, item)
    ensures other.id != item.id ==>
      var r := Favorites.Toggle(favorites, item, name, now);
      PassesQuickFilter(host, r, Popular, section, other) <==> PassesQuickFilter(host, favorites, Popular, section, other)
  {
    Favorites.ToggleFlips(favorites, item, name, now);
  }
}
