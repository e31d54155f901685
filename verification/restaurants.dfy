/** The `/api/restaurants` route: a fixed table of the cafeterias the menu API
    knows, looked up by id, and a creation endpoint that only validates its
    input. */
module Restaurants {
  import opened Wrappers

  datatype Restaurant = Restaurant(id: string, name: string)

  /** The table the route serves. The first entry, id `0`, is the
      "all restaurants" choice of the page's dropdown. */
  const Table: seq<Restaurant> := [
    Restaurant("0", "Svi restorani"),
    Restaurant("1107", "Restoran Savska"),
    Restaurant("8015", "Stjepan Radi\U{0107}"),
    Restaurant("8040", "Cvjetno naselje"),
    Restaurant("8042", "Borongaj"),
    Restaurant("6571", "La\U{0161}\U{0107}ina"),
    Restaurant("30822", "Gaudeamus"),
    Restaurant("18992", "Restoran Ekonomskog fakulteta"),
    Restaurant("8025", "TTF"),
    Restaurant("8027", "RGNF-PBF"),
    Restaurant("8029", "Restoran SC-a NSK"),
    Restaurant("8031", "Restoran na Medicinskom fakultetu"),
    Restaurant("8044", "Restoran Agronomija i \U{0160}umarstvo ZELENI PAVILJON"),
    Restaurant("8035", "Restoran FILOZOFSKI FAKULTET")
  ]

  /** The JSON bodies the route answers with. */
  datatype Body =
    | One(restaurant: Restaurant)
    | All(restaurants: seq<Restaurant>, total: nat)
    | Error(error: string)
    | Message(message: string)

  datatype Response = Response(status: nat, body: Body)

  const NotFound: string := "Restaurant not found"
  const Required: string := "ID and name are required"
  const NotImplemented: string := "Restaurant creation not implemented yet"
  const InternalError: string := "Internal server error"

  /** `restaurants.find(r => r.id === id)`: the first entry with that id. */
  function Find(table: seq<Restaurant>, id: string): (r: Option<Restaurant>)
    ensures r.None? <==> forall i :: 0 <= i < |table| ==> table[i].id != id
    ensures r.Some? ==>
      exists i :: 0 <= i < |table| && table[i] == r.value && r.value.id == id &&
        forall j :: 0 <= j < i ==> table[j].id != id
  {
    if |table| == 0 then None
    else if table[0].id == id then Some(table[0])
    else
      var r := Find(table[1..], id);
      assert forall i :: 0 < i < |table| ==> table[i] == table[1..][i - 1];
      r
  }

  /** `GET /api/restaurants[?id=…]`. `id` is `searchParams.get('id')`:
      `None` when the parameter is absent. An absent or empty id lists the
      whole table; any other id answers with its entry or with 404. */
  function Get(id: Option<string>): (r: Response)
    ensures (id.None? || id.value == "") ==> r == Response(200, All(Table, |Table|))
    ensures id.Some? && id.value != "" ==>
      (r.status == 404 <==> forall i :: 0 <= i < |Table| ==> Table[i].id != id.value)
    ensures r.status == 404 ==> r.body == Error(NotFound)
    ensures id.Some? && id.value != "" && r.status == 200 ==>
      r.body.One? && r.body.restaurant in Table && r.body.restaurant.id == id.value
    ensures r.status == 200 || r.status == 404
  {
    if id.None? || id.value == "" then Response(200, All(Table, |Table|))
    else
      match Find(Table, id.value)
      case None => Response(404, Error(NotFound))
      case Some(restaurant) => Response(200, One(restaurant))
  }

  /** No two entries of the table share an id. */
  lemma TableIdsDistinct()
    ensures forall i, j :: 0 <= i < j < |Table| ==> Table[i].id != Table[j].id
  {
  }

  /** Asking for any listed id answers with exactly that entry. */
  lemma GetEachListed(i: nat)
    requires i < |Table|
    ensures Get(Some(Table[i].id)) == Response(200, One(Table[i]))
  {
    TableIdsDistinct();
    TableIdsNonEmpty();
    FindListed(Table, i);
  }

  /** Every id of the table is a non-empty string. */
  lemma TableIdsNonEmpty()
    ensures forall i :: 0 <= i < |Table| ==> Table[i].id != ""
  {
  }

  /** In a table without repeated ids, looking up a listed id finds exactly
      that entry. */
  lemma FindListed(table: seq<Restaurant>, i: nat)
    requires i < |table|
    requires forall a, b :: 0 <= a < b < |table| ==> table[a].id != table[b].id
    ensures Find(table, table[i].id) == Some(table[i])
  {
    var r := Find(table, table[i].id);
    assert r.Some?;
    var j :| 0 <= j < |table| && table[j] == r.value && r.value.id == table[i].id;
    assert j == i;
  }

  /** A JSON value as `request.json()` produces it. */
  datatype Json =
    | JNull
    | JBool(b: bool)
    | JNumber(n: real)
    | JString(s: string)
    | JArray(elements: seq<Json>)
    | JObject(members: seq<(string, Json)>)

  /** A property read on a parsed body: `undefined` is `None`. Only objects
      have `id` or `name`; of duplicate keys the last one parsed wins. */
  function Property(value: Json, key: string): (r: Option<Json>)
    ensures r.Some? ==> value.JObject?
    ensures r.Some? ==>
      exists i :: 0 <= i < |value.members| && value.members[i] == (key, r.value) &&
        forall j :: i < j < |value.members| ==> value.members[j].0 != key
    ensures r.None? && value.JObject? ==> forall i :: 0 <= i < |value.members| ==> value.members[i].0 != key
  {
    match value
    case JObject(members) => LastMember(members, key)
    case _ => None
  }

  function LastMember(members: seq<(string, Json)>, key: string): (r: Option<Json>)
    ensures r.Some? ==>
      exists i :: 0 <= i < |members| && members[i] == (key, r.value) &&
        forall j :: i < j < |members| ==> members[j].0 != key
    ensures r.None? <==> forall i :: 0 <= i < |members| ==> members[i].0 != key
  {
    if |members| == 0 then None
    else if members[|members| - 1].0 == key then Some(members[|members| - 1].1)
    else
      var init := members[..|members| - 1];
      var r := LastMember(init, key);
      assert forall i :: 0 <= i < |init| ==> init[i] == members[i];
      assert r.Some? ==>
        exists i :: 0 <= i < |init| && init[i] == (key, r.value) &&
          forall j :: i < j < |init| ==> init[j].0 != key;
      r
  }

  /** JavaScript truthiness of a property: `undefined`, `null`, `false`, `0`
      and `""` are falsy, everything else (objects and arrays included) is
      truthy. */
  predicate Truthy(v: Option<Json>) {
    match v
    case None => false
    case Some(JNull) => false
    case Some(JBool(b)) => b
    case Some(JNumber(n)) => n != 0.0
    case Some(JString(s)) => s != ""
    case Some(_) => true
  }

  /** `POST /api/restaurants`. `body` is `None` when the request body is not
      JSON; that, and destructuring `null`, end in the catch block's 500.
      Otherwise a falsy `id` or `name` is a 400, and anything else a 501:
      nothing is ever created. */
  function Post(body: Option<Json>): (r: Response)
    ensures r.status == 500 <==> body.None? || body.value.JNull?
    ensures r.status == 400 <==> (body.Some? && !body.value.JNull? &&
      (!Truthy(Property(body.value, "id")) || !Truthy(Property(body.value, "name"))))
    ensures r.status == 400 ==> r.body == Error(Required)
    ensures r.status == 501 ==> r.body == Message(NotImplemented)
    ensures r.status in {400, 500, 501}
  {
    if body.None? || body.value.JNull? then Response(500, Error(InternalError))
    else if !Truthy(Property(body.value, "id")) || !Truthy(Property(body.value, "name")) then
      Response(400, Error(Required))
    else Response(501, Message(NotImplemented))
  }

  /** Well-formed creation requests are still refused: whatever the body,
      the answer is never a success, and a body with a non-empty string id
      and name gets the 501. */
  lemma PostNeverCreates(id: string, name: string)
    requires id != "" && name != ""
    ensures Post(Some(JObject([("id", JString(id)), ("name", JString(name))]))).status == 501
  {
    var members := [("id", JString(id)), ("name", JString(name))];
    assert LastMember(members, "name") == Some(JString(name));
    assert members[..1] == [("id", JString(id))];
    assert LastMember(members, "id") == Some(JString(id));
  }
}
