/** The data model of the cafeteria menu browser: menu items nested in
    sections, sections in meals, meals in the per-restaurant-per-day records
    the external menu API returns, and the favourites the user keeps.

    A JSON object is modelled by the sequence of its entries in insertion
    order, which is what `Object.entries` and `Object.values` walk; a key the
    object does not have is simply not listed, and a key whose value is `null`
    carries `None`. */
module Menu {
  import opened Wrappers

  /** An item identifier. The page declares it a number, the shared type
      declarations a string; nothing but equality is ever asked of it. */
  type Id(==, !new)

  datatype MenuItem = MenuItem(
    id: Id,
    title: string,
    price: string,      // a decimal in euros, as text; may be empty or malformed
    allergens: string,  // comma-separated codes, `*` marks traces, `-` for none
    weight: Option<string>)

  /** One `[sectionType, items]` entry of a meal (`menu`, `vege_menu`, `izbor`,
      `prilozi`, or whatever else the API sends). */
  datatype SectionEntry = SectionEntry(key: string, items: Option<seq<MenuItem>>)

  /** One `[mealType, sections]` entry of `menu_products` (`rucak`, `vecera`). */
  datatype MealEntry = MealEntry(key: string, sections: seq<SectionEntry>)

  /** One record of the menu API: a restaurant's menu for one date.
      `title` is `title.rendered`, the restaurant's display name. */
  datatype Day = Day(id: int, title: string, menuDate: string, meals: seq<MealEntry>)

  /** A favourite: the item's own fields plus the restaurant display name and
      the ISO timestamp of the moment it was added. */
  datatype Favorite = Favorite(item: MenuItem, restaurant: string, dateAdded: string)

  /** The JavaScript runtime services the logic calls but that this model does
      not define: `toLowerCase`, `parseFloat` (`None` for NaN, exact decimal
      value otherwise), `a.localeCompare(b) <= 0`, and
      `new Date(s).toLocaleDateString('hr-HR')`. */
  datatype Host = Host(
    lower: string -> string,
    parseFloat: string -> Option<real>,
    localeLe: (string, string) -> bool,
    localeDate: string -> string)

  /** The section whose items the vegetarian quick filter and the vegetarian
      count select. */
  const VegeMenu: string := "vege_menu"

  /** An item as the nested walks over the menu meet it: with the key of its
      section and the display name of its restaurant. */
  datatype Placement = Placement(item: MenuItem, section: string, restaurant: string)

  /** The items of a section; a `null` list has none. */
  function SectionItems(e: SectionEntry): seq<MenuItem> {
    e.items.GetOr([])
  }

  function SectionPlacements(e: SectionEntry, restaurant: string): (r: seq<Placement>)
    ensures |r| == |SectionItems(e)|
    ensures forall i :: 0 <= i < |r| ==>
      r[i] == Placement(SectionItems(e)[i], e.key, restaurant)
  {
    var items := SectionItems(e);
    seq(|items|, i requires 0 <= i < |items| => Placement(items[i], e.key, restaurant))
  }

  function SectionsPlacements(sections: seq<SectionEntry>, restaurant: string): seq<Placement> {
    if |sections| == 0 then []
    else SectionPlacements(sections[0], restaurant) + SectionsPlacements(sections[1..], restaurant)
  }

  function MealsPlacements(meals: seq<MealEntry>, restaurant: string): seq<Placement> {
    if |meals| == 0 then []
    else SectionsPlacements(meals[0].sections, restaurant) + MealsPlacements(meals[1..], restaurant)
  }

  /** Every item of every record, in the order the page's nested `forEach`
      loops visit them: record by record, meal by meal, section by section. */
  function Placements(days: seq<Day>): seq<Placement> {
    if |days| == 0 then []
    else MealsPlacements(days[0].meals, days[0].title) + Placements(days[1..])
  }

  /** The items alone, in the same order. */
  function AllItems(days: seq<Day>): (r: seq<MenuItem>)
    ensures |r| == |Placements(days)|
    ensures forall i :: 0 <= i < |r| ==> r[i] == Placements(days)[i].item
  {
    var ps := Placements(days);
    seq(|ps|, i requires 0 <= i < |ps| => ps[i].item)
  }

  /** `favorites.some(fav => fav.id === id)`: the heart shown on an item. */
  predicate IsFavoriteId(favorites: seq<Favorite>, id: Id) {
    exists i | 0 <= i < |favorites| :: favorites[i].item.id == id
  }

  /** The price `parseFloat` gives an item. */
  function PriceOf(host: Host, item: MenuItem): Option<real> {
    host.parseFloat(item.price)
  }

  /** The ranking of parsed prices the price sorts use: numbers ascending,
      NaN after every number. */
  predicate PriceLe(a: Option<real>, b: Option<real>) {
    match (a, b)
    case (Some(x), Some(y)) => x <= y
    case (Some(_), None) => true
    case (None, Some(_)) => false
    case (None, None) => true
  }
}
