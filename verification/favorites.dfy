/** The favourites list and the transitions the page applies to it: the heart
    toggle, the trash button, the two sort buttons, clearing, and the CSV
    export. Every transition is a pure function from the old list to the new
    one; the timestamp of an addition is passed in. */
module Favorites {
  import opened Wrappers
  import opened Menu
  import Seqs
  import Sorting
  import Text

  /** `favorites.findIndex(fav => fav.id === id)`, with `None` for `-1`. */
  function FindIndex(favorites: seq<Favorite>, id: Id): (r: Option<nat>)
    ensures r.None? <==> !IsFavoriteId(favorites, id)
    ensures r.Some? ==> r.value < |favorites| && favorites[r.value].item.id == id
    ensures r.Some? ==> forall j :: 0 <= j < r.value ==> favorites[j].item.id != id
  {
    if |favorites| == 0 then None
    else if favorites[0].item.id == id then Some(0)
    else
      match FindIndex(favorites[1..], id)
      case None =>
        assert forall i :: 0 < i < |favorites| ==> favorites[i] == favorites[1..][i - 1];
        None
      case Some(k) => Some(k + 1)
  }

  /** The heart button: an item already favourited (by id) loses its first
      entry; any other item is appended with the restaurant name and the
      time `now`. */
  function Toggle(favorites: seq<Favorite>, item: MenuItem, restaurantName: string, now: string): (r: seq<Favorite>)
    ensures IsFavoriteId(favorites, item.id) ==>
      exists i :: 0 <= i < |favorites| && favorites[i].item.id == item.id
        && (forall j :: 0 <= j < i ==> favorites[j].item.id != item.id)
        && r == favorites[..i] + favorites[i + 1..]
    ensures IsFavoriteId(favorites, item.id) ==> |r| == |favorites| - 1
    ensures !IsFavoriteId(favorites, item.id) ==>
      |r| == |favorites| + 1 && r[..|favorites|] == favorites && r[|favorites|] == Favorite(item, restaurantName, now)
  {
    match FindIndex(favorites, item.id)
    case Some(i) => favorites[..i] + favorites[i + 1..]
    case None => favorites + [Favorite(item, restaurantName, now)]
  }

  /** Toggling an item that is not a favourite twice restores the list,
      whatever the two timestamps. */
  lemma ToggleTwice(favorites: seq<Favorite>, item: MenuItem, name: string, now: string, name': string, now': string)
    requires !IsFavoriteId(favorites, item.id)
    ensures Toggle(Toggle(favorites, item, name, now), item, name', now') == favorites
  {
    var once := Toggle(favorites, item, name, now);
    assert once == favorites + [Favorite(item, name, now)];
    assert FindIndex(once, item.id) == Some(|favorites|);
    assert once[..|favorites|] == favorites;
    assert once[|favorites| + 1..] == [];
  }

  /** No two favourites share an id: what the heart toggle keeps true. */
  ghost predicate DistinctIds(favorites: seq<Favorite>) {
    forall i, j :: 0 <= i < j < |favorites| ==> favorites[i].item.id != favorites[j].item.id
  }

  /** Starting from distinct ids, a toggle keeps them distinct, flips the
      favourite status of the toggled item and leaves every other id's
      status alone. */
  lemma ToggleFlips(favorites: seq<Favorite>, item: MenuItem, name: string, now: string)
    requires DistinctIds(favorites)
    ensures var r := Toggle(favorites, item, name, now);
      && DistinctIds(r)
      && (IsFavoriteId(r, item.id) <==> !IsFavoriteId(favorites, item.id))
      && forall id :: id != item.id ==> (IsFavoriteId(r, id) <==> IsFavoriteId(favorites, id))
  {
    var r := Toggle(favorites, item, name, now);
    if IsFavoriteId(favorites, item.id) {
      var i :| 0 <= i < |favorites| && favorites[i].item.id == item.id
        && (forall j :: 0 <= j < i ==> favorites[j].item.id != item.id)
        && r == favorites[..i] + favorites[i + 1..];
      RemoveAtFlips(favorites, i);
    } else {
      AppendFlips(favorites, Favorite(item, name, now));
    }
  }

  lemma RemoveAtFlips(favorites: seq<Favorite>, i: nat)
    requires DistinctIds(favorites)
    requires i < |favorites|
    ensures var r := favorites[..i] + favorites[i + 1..];
      && DistinctIds(r)
      && !IsFavoriteId(r, favorites[i].item.id)
      && forall id :: id != favorites[i].item.id ==> (IsFavoriteId(r, id) <==> IsFavoriteId(favorites, id))
  {
    var r := favorites[..i] + favorites[i + 1..];
    assert forall k :: 0 <= k < i ==> r[k] == favorites[k];
    assert forall k :: i <= k < |r| ==> r[k] == favorites[k + 1];
    forall id | id != favorites[i].item.id
      ensures IsFavoriteId(r, id) <==> IsFavoriteId(favorites, id)
    {
      if IsFavoriteId(favorites, id) {
        var k :| 0 <= k < |favorites| && favorites[k].item.id == id;
        if k < i {
          assert r[k].item.id == id;
        } else {
          assert r[k - 1].item.id == id;
        }
      }
    }
  }

  lemma AppendFlips(favorites: seq<Favorite>, fav: Favorite)
    requires DistinctIds(favorites)
    requires !IsFavoriteId(favorites, fav.item.id)
    ensures var r := favorites + [fav];
      && DistinctIds(r)
      && IsFavoriteId(r, fav.item.id)
      && forall id :: id != fav.item.id ==> (IsFavoriteId(r, id) <==> IsFavoriteId(favorites, id))
  {
    var r := favorites + [fav];
    assert r[|favorites|] == fav;
    forall id | id != fav.item.id && IsFavoriteId(r, id)
      ensures IsFavoriteId(favorites, id)
    {
      var k :| 0 <= k < |r| && r[k].item.id == id;
      assert favorites[k] == r[k];
    }
    forall id | IsFavoriteId(favorites, id)
      ensures IsFavoriteId(r, id)
    {
      var k :| 0 <= k < |favorites| && favorites[k].item.id == id;
      assert r[k] == favorites[k];
    }
  }

  /** The entry the trash button on `(id, dateAdded)` names. */
  predicate IsEntry(fav: Favorite, id: Id, dateAdded: string) {
    fav.item.id == id && fav.dateAdded == dateAdded
  }

  /** How many entries carry both `id` and `dateAdded`. */
  function CountEntries(favorites: seq<Favorite>, id: Id, dateAdded: string): nat {
    if |favorites| == 0 then 0
    else (if IsEntry(favorites[0], id, dateAdded) then 1 else 0) + CountEntries(favorites[1..], id, dateAdded)
  }

  /** The trash button: drops every entry whose id and timestamp both match,
      keeping the others in order and unchanged. */
  function Remove(favorites: seq<Favorite>, id: Id, dateAdded: string): (r: seq<Favorite>)
    ensures Seqs.IsSubsequence(r, favorites)
    ensures forall fav :: fav in r <==> fav in favorites && !IsEntry(fav, id, dateAdded)
    ensures |favorites| - |r| == CountEntries(favorites, id, dateAdded)
  {
    if |favorites| == 0 then []
    else if IsEntry(favorites[0], id, dateAdded) then Remove(favorites[1..], id, dateAdded)
    else [favorites[0]] + Remove(favorites[1..], id, dateAdded)
  }

  /** When the ids are distinct (as the heart toggle keeps them), the trash
      button on a listed entry removes that entry and nothing else. */
  lemma {:induction false} RemoveListed(favorites: seq<Favorite>, k: nat)
    requires DistinctIds(favorites)
    requires k < |favorites|
    ensures Remove(favorites, favorites[k].item.id, favorites[k].dateAdded) == favorites[..k] + favorites[k + 1..]
  {
    if k == 0 {
      RemoveFirstListed(favorites);
    } else {
      var id, d := favorites[k].item.id, favorites[k].dateAdded;
      DistinctAt(favorites, 0, k);
      DistinctTail(favorites);
      RemoveListed(favorites[1..], k - 1);
      RemoveKeepsHead(favorites, id, d);
      SliceAfterHead(favorites, k);
    }
  }

  /** Two positions of a list with distinct ids hold different ids. */
  lemma DistinctAt(favorites: seq<Favorite>, i: nat, j: nat)
    requires DistinctIds(favorites) && i < j < |favorites|
    ensures favorites[i].item.id != favorites[j].item.id
  {
  }

  /** Cutting position `k > 0` out of a list is keeping its head and cutting
      position `k - 1` out of its tail. */
  lemma SliceAfterHead<T>(s: seq<T>, k: nat)
    requires 0 < k < |s|
    ensures s[1..][k - 1] == s[k]
    ensures s[..k] + s[k + 1..] == [s[0]] + (s[1..][..k - 1] + s[1..][k..])
  {
    assert s[..k] == [s[0]] + s[1..][..k - 1];
    assert s[k + 1..] == s[1..][k..];
  }

  lemma RemoveFirstListed(favorites: seq<Favorite>)
    requires DistinctIds(favorites) && |favorites| > 0
    ensures Remove(favorites, favorites[0].item.id, favorites[0].dateAdded) == favorites[1..]
  {
    var tail := favorites[1..];
    var id := favorites[0].item.id;
    assert forall i :: 0 <= i < |tail| ==> tail[i] == favorites[i + 1];
    RemoveNone(tail, id, favorites[0].dateAdded);
  }

  lemma RemoveKeepsHead(favorites: seq<Favorite>, id: Id, dateAdded: string)
    requires |favorites| > 0 && !IsEntry(favorites[0], id, dateAdded)
    ensures Remove(favorites, id, dateAdded) == [favorites[0]] + Remove(favorites[1..], id, dateAdded)
  {
  }

  lemma DistinctTail(favorites: seq<Favorite>)
    requires |favorites| > 0 && DistinctIds(favorites)
    ensures DistinctIds(favorites[1..])
  {
    var tail := favorites[1..];
    forall i, j | 0 <= i < j < |tail|
      ensures tail[i].item.id != tail[j].item.id
    {
      assert tail[i] == favorites[i + 1] && tail[j] == favorites[j + 1];
    }
  }

  /** Removing an entry no favourite matches changes nothing. */
  lemma {:induction false} RemoveNone(favorites: seq<Favorite>, id: Id, dateAdded: string)
    requires forall i :: 0 <= i < |favorites| ==> favorites[i].item.id != id
    ensures Remove(favorites, id, dateAdded) == favorites
  {
    if |favorites| > 0 {
      RemoveNone(favorites[1..], id, dateAdded);
      assert favorites == [favorites[0]] + favorites[1..];
    }
  }

  /** The price comparator of "Sortiraj po cijeni", numbers ascending and
      NaN after every number. */
  function ByPrice(host: Host): (Favorite, Favorite) -> bool {
    (a: Favorite, b: Favorite) => PriceLe(PriceOf(host, a.item), PriceOf(host, b.item))
  }

  lemma PriceLeTotal(host: Host)
    ensures Sorting.TotalPreorder(ByPrice(host))
  {
    forall x: Favorite, y: Favorite
      ensures ByPrice(host)(x, y) || ByPrice(host)(y, x)
    {
    }
    forall x: Favorite, y: Favorite, z: Favorite | ByPrice(host)(x, y) && ByPrice(host)(y, z)
      ensures ByPrice(host)(x, z)
    {
    }
  }

  /** Every favourite's price is a number. */
  predicate AllNumeric(host: Host, favorites: seq<Favorite>) {
    forall i :: 0 <= i < |favorites| ==> PriceOf(host, favorites[i].item).Some?
  }

  /** Every price is a number and none is above a later one. */
  predicate Ascending(host: Host, favorites: seq<Favorite>) {
    forall i, j :: 0 <= i < j < |favorites| ==>
      PriceOf(host, favorites[i].item).Some? && PriceOf(host, favorites[j].item).Some? &&
      PriceOf(host, favorites[i].item).value <= PriceOf(host, favorites[j].item).value
  }

  /** Sorting by price: a permutation in price order; when every price is a
      number, in ascending numeric order. */
  function SortByPrice(host: Host, favorites: seq<Favorite>): (r: seq<Favorite>)
    ensures multiset(r) == multiset(favorites)
    ensures Sorting.Sorted(ByPrice(host), r)
    ensures AllNumeric(host, favorites) ==> Ascending(host, r)
  {
    PriceLeTotal(host);
    Sorting.SortBySorted(ByPrice(host), favorites);
    var r := Sorting.SortBy(ByPrice(host), favorites);
    NumericOrder(host, favorites, r);
    r
  }

  /** A permutation sorted under `ByPrice` of favourites whose prices are all
      numbers is in ascending numeric order. */
  lemma NumericOrder(host: Host, favorites: seq<Favorite>, r: seq<Favorite>)
    requires multiset(r) == multiset(favorites)
    requires Sorting.Sorted(ByPrice(host), r)
    ensures AllNumeric(host, favorites) ==> Ascending(host, r)
  {
    if AllNumeric(host, favorites) {
      forall i | 0 <= i < |r|
        ensures PriceOf(host, r[i].item).Some?
      {
        assert r[i] in multiset(favorites);
        assert r[i] in favorites;
      }
      forall i, j | 0 <= i < j < |r|
        ensures PriceOf(host, r[i].item).Some? && PriceOf(host, r[j].item).Some?
        ensures PriceOf(host, r[i].item).value <= PriceOf(host, r[j].item).value
      {
        assert ByPrice(host)(r[i], r[j]);
      }
    }
  }

  /** The name comparator of "Sortiraj po imenu": `a.title.localeCompare(b.title) <= 0`. */
  function ByName(host: Host): (Favorite, Favorite) -> bool {
    (a: Favorite, b: Favorite) => host.localeLe(a.item.title, b.item.title)
  }

  /** Sorting by name: a permutation, in title order whenever the locale
      comparison ranks strings consistently. */
  function SortByName(host: Host, favorites: seq<Favorite>): (r: seq<Favorite>)
    ensures multiset(r) == multiset(favorites)
    ensures Sorting.TotalPreorder(host.localeLe) ==>
      forall i, j :: 0 <= i < j < |r| ==> host.localeLe(r[i].item.title, r[j].item.title)
  {
    NameOrderSorted(host, favorites);
    Sorting.SortBy(ByName(host), favorites)
  }

  lemma NameOrderSorted(host: Host, favorites: seq<Favorite>)
    ensures Sorting.TotalPreorder(host.localeLe) ==>
      Sorting.Sorted(ByName(host), Sorting.SortBy(ByName(host), favorites))
  {
    if Sorting.TotalPreorder(host.localeLe) {
      var le := ByName(host);
      forall x: Favorite, y: Favorite
        ensures le(x, y) || le(y, x)
      {
        assert host.localeLe(x.item.title, y.item.title) || host.localeLe(y.item.title, x.item.title);
      }
      forall x: Favorite, y: Favorite, z: Favorite | le(x, y) && le(y, z)
        ensures le(x, z)
      {
        assert host.localeLe(x.item.title, y.item.title) && host.localeLe(y.item.title, z.item.title);
      }
      Sorting.SortBySorted(le, favorites);
    }
  }

  /** "Obriši sve": the list after clearing is empty, and no item counts as
      a favourite any more. */
  function Clear(favorites: seq<Favorite>): (r: seq<Favorite>)
    ensures forall id :: !IsFavoriteId(r, id)
  {
    []
  }

  // ---------------------------------------------------------------------
  // Distinct ids at every reachable list

  /** Every button of the favourites list keeps the ids distinct, so the
      distinctness the toggle and trash lemmas assume holds in every list the
      page reaches from the empty one. */
  lemma TransitionsKeepDistinct(host: Host, favorites: seq<Favorite>, item: MenuItem, name: string, now: string,
                                id: Id, dateAdded: string)
    requires DistinctIds(favorites)
    ensures DistinctIds(Toggle(favorites, item, name, now))
    ensures DistinctIds(Remove(favorites, id, dateAdded))
    ensures DistinctIds(SortByPrice(host, favorites))
    ensures DistinctIds(SortByName(host, favorites))
    ensures DistinctIds(Clear(favorites))
  {
    ToggleFlips(favorites, item, name, now);
    RemoveKeepsDistinct(favorites, id, dateAdded);
    PermutationKeepsDistinct(favorites, SortByPrice(host, favorites));
    PermutationKeepsDistinct(favorites, SortByName(host, favorites));
  }

  /** The trash button keeps the ids distinct. */
  lemma {:induction false} RemoveKeepsDistinct(favorites: seq<Favorite>, id: Id, dateAdded: string)
    requires DistinctIds(favorites)
    ensures DistinctIds(Remove(favorites, id, dateAdded))
  {
    if |favorites| > 0 {
      var tail := favorites[1..];
      DistinctTail(favorites);
      RemoveKeepsDistinct(tail, id, dateAdded);
      if !IsEntry(favorites[0], id, dateAdded) {
        var rest := Remove(tail, id, dateAdded);
        var r := [favorites[0]] + rest;
        assert r == Remove(favorites, id, dateAdded);
        forall j | 0 < j < |r|
          ensures r[0].item.id != r[j].item.id
        {
          assert r[j] in rest;
          assert r[j] in tail;
          var k :| 0 <= k < |tail| && tail[k] == r[j];
          DistinctAt(favorites, 0, k + 1);
        }
        forall i, j | 0 < i < j < |r|
          ensures r[i].item.id != r[j].item.id
        {
          assert r[i] == rest[i - 1] && r[j] == rest[j - 1];
        }
      }
    }
  }

  /** A reordering of a list with distinct ids has distinct ids. */
  lemma PermutationKeepsDistinct(a: seq<Favorite>, b: seq<Favorite>)
    requires DistinctIds(a)
    requires multiset(b) == multiset(a)
    ensures DistinctIds(b)
  {
    forall i, j | 0 <= i < j < |b|
      ensures b[i].item.id != b[j].item.id
    {
      assert b[i] in multiset(a) && b[j] in multiset(a);
      var p :| 0 <= p < |a| && a[p] == b[i];
      var q :| 0 <= q < |a| && a[q] == b[j];
      DistinctOnce(a, p);
      TwiceCounted(b, i, j);
      assert b[i] != b[j];
      assert p < q || q < p;
    }
  }

  /** In a list with distinct ids every entry occurs once. */
  lemma DistinctOnce(a: seq<Favorite>, k: nat)
    requires DistinctIds(a) && k < |a|
    ensures multiset(a)[a[k]] == 1
  {
    assert a == a[..k] + [a[k]] + a[k + 1..];
    var before := a[..k];
    assert a[k] !in before by {
      forall m | 0 <= m < k
        ensures before[m] != a[k]
      {
        DistinctAt(a, m, k);
      }
    }
    var after := a[k + 1..];
    assert a[k] !in after by {
      forall m | 0 <= m < |after|
        ensures after[m] != a[k]
      {
        DistinctAt(a, k, k + 1 + m);
      }
    }
  }

  /** An element found at two positions occurs at least twice. */
  lemma TwiceCounted<T>(b: seq<T>, i: nat, j: nat)
    requires i < j < |b|
    ensures b[i] == b[j] ==> multiset(b)[b[i]] >= 2
  {
    assert b == b[..j] + b[j..];
    assert b[i] in b[..j];
    assert b[j] == b[j..][0];
  }

  const CsvHeader: seq<string> := ["Naziv", "Cijena", "Alergeni", "Restoran", "Datum dodavanja"]

  /** The five cells of a favourite's row; an empty allergen list shows `Nema`. */
  function CsvRow(host: Host, fav: Favorite): (r: seq<string>)
    ensures |r| == |CsvHeader|
  {
    [ fav.item.title,
      fav.item.price,
      if fav.item.allergens == "" then "Nema" else fav.item.allergens,
      fav.restaurant,
      host.localeDate(fav.dateAdded) ]
  }

  /** The cell lists of the export, header first. */
  function CsvRecords(host: Host, favorites: seq<Favorite>): (r: seq<seq<string>>)
    ensures |r| == |favorites| + 1 && r[0] == CsvHeader
    ensures forall i :: 0 <= i < |favorites| ==> r[i + 1] == CsvRow(host, favorites[i])
  {
    [CsvHeader] + seq(|favorites|, i requires 0 <= i < |favorites| => CsvRow(host, favorites[i]))
  }

  /** Each record joined with `,`, as the page writes it. */
  function CsvLines(records: seq<seq<string>>): (r: seq<string>)
    ensures |r| == |records|
    ensures forall i :: 0 <= i < |r| ==> r[i] == Text.Join(records[i], ',')
  {
    seq(|records|, i requires 0 <= i < |records| => Text.Join(records[i], ','))
  }

  /** The CSV text of the export button: lines joined with `\n`, no quoting. */
  function ExportCsv(host: Host, favorites: seq<Favorite>): string {
    Text.Join(CsvLines(CsvRecords(host, favorites)), '\n')
  }

  /** No cell of the export contains `c`. */
  ghost predicate CellsFree(host: Host, favorites: seq<Favorite>, c: char) {
    forall i, k :: 0 <= i < |favorites| && 0 <= k < |CsvRow(host, favorites[i])| ==> c !in CsvRow(host, favorites[i])[k]
  }

  /** Reading the export back line by line and cell by cell recovers the
      header and every favourite's row, provided no cell contains a comma or
      a line break. */
  lemma CsvReadBack(host: Host, favorites: seq<Favorite>)
    requires CellsFree(host, favorites, ',') && CellsFree(host, favorites, '\n')
    ensures var lines := Text.Split(ExportCsv(host, favorites), '\n');
      && |lines| == |favorites| + 1
      && Text.Split(lines[0], ',') == CsvHeader
      && forall i :: 0 <= i < |favorites| ==> Text.Split(lines[i + 1], ',') == CsvRow(host, favorites[i])
  {
    var records := CsvRecords(host, favorites);
    var lines := CsvLines(records);
    forall i | 0 <= i < |records|
      ensures Text.Split(lines[i], ',') == records[i]
      ensures '\n' !in lines[i]
    {
      if i == 0 {
        HeaderLine();
      } else {
        Text.SplitJoin(records[i], ',');
        JoinFree(records[i], ',', '\n');
      }
    }
    Text.SplitJoin(lines, '\n');
  }

  /** No header cell holds a comma or a line break. */
  lemma HeaderFree()
    ensures forall k :: 0 <= k < |CsvHeader| ==> ',' !in CsvHeader[k] && '\n' !in CsvHeader[k]
  {
    assert ',' !in "Naziv" && '\n' !in "Naziv";
    assert ',' !in "Cijena" && '\n' !in "Cijena";
    assert ',' !in "Alergeni" && '\n' !in "Alergeni";
    assert ',' !in "Restoran" && '\n' !in "Restoran";
    assert ',' !in "Datum dodavanja" && '\n' !in "Datum dodavanja";
  }

  /** The header line reads back as the header and holds no line break. */
  lemma HeaderLine()
    ensures Text.Split(Text.Join(CsvHeader, ','), ',') == CsvHeader
    ensures '\n' !in Text.Join(CsvHeader, ',')
  {
    HeaderFree();
    Text.SplitJoin(CsvHeader, ',');
    JoinFree(CsvHeader, ',', '\n');
  }

  /** Joining pieces free of `c` with a separator other than `c` gives a
      string free of `c`. */
  lemma {:induction false} JoinFree(parts: seq<string>, sep: char, c: char)
    requires sep != c
    requires forall k :: 0 <= k < |parts| ==> c !in parts[k]
    ensures c !in Text.Join(parts, sep)
  {
    if |parts| > 1 {
      JoinFree(parts[1..], sep, c);
    }
  }

  /** The export does not quote its cells, so a favourite whose allergen
      list is `A,G` writes a row that reads back as six cells under a
      five-cell header, its allergens spread over two columns. */
  lemma CsvAllergenShift(host: Host, fav: Favorite)
    requires fav.item.allergens == "A,G"
    requires ',' !in fav.item.title && ',' !in fav.item.price && ',' !in fav.restaurant
    requires ',' !in host.localeDate(fav.dateAdded)
    requires '\n' !in fav.item.title && '\n' !in fav.item.price && '\n' !in fav.restaurant
    requires '\n' !in host.localeDate(fav.dateAdded)
    ensures var lines := Text.Split(ExportCsv(host, [fav]), '\n');
      && |lines| == 2
      && Text.Split(lines[0], ',') == CsvHeader
      && Text.Split(lines[1], ',') ==
           [fav.item.title, fav.item.price, "A", "G", fav.restaurant, host.localeDate(fav.dateAdded)]
  {
    var row := CsvRow(host, fav);
    var six := [fav.item.title, fav.item.price, "A", "G", fav.restaurant, host.localeDate(fav.dateAdded)];
    JoinSplitsCell(fav.item.title, fav.item.price, fav.restaurant, host.localeDate(fav.dateAdded));
    assert Text.Join(row, ',') == Text.Join(six, ',');
    Text.SplitJoin(six, ',');
    CsvLinesOfOne(host, fav);
  }

  /** The comma inside `A,G` is indistinguishable from a cell separator. */
  lemma JoinSplitsCell(a: string, b: string, c: string, d: string)
    ensures Text.Join([a, b, "A,G", c, d], ',') == Text.Join([a, b, "A", "G", c, d], ',')
  {
    var five := [a, b, "A,G", c, d];
    var six := [a, b, "A", "G", c, d];
    assert five[1..][1..] == ["A,G", c, d] && six[1..][1..] == ["A", "G", c, d];
    assert ["A,G", c, d][1..] == [c, d] && ["A", "G", c, d][1..] == ["G", c, d];
    assert ["G", c, d][1..] == [c, d];
    assert Text.Join(["A,G", c, d], ',') == "A,G" + [','] + Text.Join([c, d], ',');
    assert Text.Join(["A", "G", c, d], ',') == "A" + [','] + ("G" + [','] + Text.Join([c, d], ','));
    assert "A" + [','] + ("G" + [','] + Text.Join([c, d], ',')) == "A,G" + [','] + Text.Join([c, d], ',');
  }

  /** The export of a one-favourite list splits into the header line and
      the favourite's line, when no cell holds a line break. */
  lemma CsvLinesOfOne(host: Host, fav: Favorite)
    requires forall k :: 0 <= k < |CsvRow(host, fav)| ==> '\n' !in CsvRow(host, fav)[k]
    ensures Text.Split(ExportCsv(host, [fav]), '\n') == [Text.Join(CsvHeader, ','), Text.Join(CsvRow(host, fav), ',')]
    ensures Text.Split(Text.Join(CsvHeader, ','), ',') == CsvHeader
  {
    var lines := CsvLines(CsvRecords(host, [fav]));
    OneFavoriteLines(host, fav);
    HeaderLine();
    JoinFree(CsvRow(host, fav), ',', '\n');
    Text.SplitJoin(lines, '\n');
  }

  /** Exporting one favourite gives the header line and one row, its cells
      in column order and the date as the host's locale formats it. */
  lemma CsvPizzaExample(host: Host, id: Id, weight: Option<string>)
    requires host.localeDate("2024-01-01T00:00:00Z") == "1.1.2024."
    ensures ExportCsv(host, [Favorite(MenuItem(id, "Pizza", "2.50", "A", weight), "X", "2024-01-01T00:00:00Z")]) ==
      "Naziv,Cijena,Alergeni,Restoran,Datum dodavanja\nPizza,2.50,A,X,1.1.2024."
  {
    var fav := Favorite(MenuItem(id, "Pizza", "2.50", "A", weight), "X", "2024-01-01T00:00:00Z");
    OneFavoriteLines(host, fav);
    assert CsvRow(host, fav) == ["Pizza", "2.50", "A", "X", "1.1.2024."];
    PizzaText(Text.Join(CsvHeader, ','), Text.Join(["Pizza", "2.50", "A", "X", "1.1.2024."], ','));
  }

  lemma PizzaText(header: string, row: string)
    requires header == Text.Join(CsvHeader, ',')
    requires row == Text.Join(["Pizza", "2.50", "A", "X", "1.1.2024."], ',')
    ensures Text.Join([header, row], '\n') == "Naziv,Cijena,Alergeni,Restoran,Datum dodavanja\nPizza,2.50,A,X,1.1.2024."
  {
    HeaderText(header);
    RowText(row);
    JoinTwo(header, row, '\n');
    TwoLinesText(header, row);
  }

  lemma HeaderText(header: string)
    requires header == Text.Join(CsvHeader, ',')
    ensures header == "Naziv,Cijena,Alergeni,Restoran,Datum dodavanja"
  {
    assert CsvHeader == ["Naziv", "Cijena", "Alergeni", "Restoran", "Datum dodavanja"];
    JoinFive("Naziv", "Cijena", "Alergeni", "Restoran", "Datum dodavanja");
    HeaderChars();
  }

  lemma HeaderChars()
    ensures "Naziv" + [','] + "Cijena" + [','] + "Alergeni" + [','] + "Restoran" + [','] + "Datum dodavanja"
      == "Naziv,Cijena,Alergeni,Restoran,Datum dodavanja"
  {
    HeaderTwo();
    HeaderThree();
    HeaderFour();
    HeaderFive();
  }

  lemma HeaderTwo()
    ensures "Naziv" + [','] + "Cijena" == "Naziv,Cijena"
  {
  }

  lemma HeaderThree()
    ensures "Naziv,Cijena" + [','] + "Alergeni" == "Naziv,Cijena,Alergeni"
  {
  }

  lemma HeaderFour()
    ensures "Naziv,Cijena,Alergeni" + [','] + "Restoran" == "Naziv,Cijena,Alergeni,Restoran"
  {
  }

  lemma HeaderFive()
    ensures "Naziv,Cijena,Alergeni,Restoran" + [','] + "Datum dodavanja" == "Naziv,Cijena,Alergeni,Restoran,Datum dodavanja"
  {
  }

  lemma RowText(row: string)
    requires row == Text.Join(["Pizza", "2.50", "A", "X", "1.1.2024."], ',')
    ensures row == "Pizza,2.50,A,X,1.1.2024."
  {
    JoinFive("Pizza", "2.50", "A", "X", "1.1.2024.");
    RowChars();
  }

  lemma RowChars()
    ensures "Pizza" + [','] + "2.50" + [','] + "A" + [','] + "X" + [','] + "1.1.2024." == "Pizza,2.50,A,X,1.1.2024."
  {
    assert "Pizza" + [','] + "2.50" == "Pizza,2.50";
    assert "Pizza,2.50" + [','] + "A" + [','] + "X" == "Pizza,2.50,A,X";
  }

  lemma TwoLinesText(header: string, row: string)
    requires header == "Naziv,Cijena,Alergeni,Restoran,Datum dodavanja"
    requires row == "Pizza,2.50,A,X,1.1.2024."
    ensures header + ['\n'] + row == "Naziv,Cijena,Alergeni,Restoran,Datum dodavanja\nPizza,2.50,A,X,1.1.2024."
  {
  }

  lemma JoinTwo(a: string, b: string, sep: char)
    ensures Text.Join([a, b], sep) == a + [sep] + b
  {
    assert [a, b][1..] == [b];
  }

  lemma OneFavoriteLines(host: Host, fav: Favorite)
    ensures CsvLines(CsvRecords(host, [fav])) == [Text.Join(CsvHeader, ','), Text.Join(CsvRow(host, fav), ',')]
  {
  }

  lemma JoinFive(a: string, b: string, c: string, d: string, e: string)
    ensures Text.Join([a, b, c, d, e], ',') == a + [','] + b + [','] + c + [','] + d + [','] + e
  {
    assert [d, e][1..] == [e];
    var de := Text.Join([d, e], ',');
    assert de == d + [','] + e;
    assert [c, d, e][1..] == [d, e];
    var cde := Text.Join([c, d, e], ',');
    assert cde == c + [','] + de;
    assert [b, c, d, e][1..] == [c, d, e];
    var bcde := Text.Join([b, c, d, e], ',');
    assert bcde == b + [','] + cde;
    assert [a, b, c, d, e][1..] == [b, c, d, e];
    assert Text.Join([a, b, c, d, e], ',') == a + [','] + bcde;
  }
}
