/** The city registry: a constant table of supported cities, a lookup by id
  * that returns the first city with that id, and the default city. */
module CityConfig {
  import opened Wrappers

  datatype City = City(
    id: string,
    name: string,
    latitude: real,
    longitude: real,
    timezone: string,
    emoji: string,
    description: string)

  /** `CITIES` */
  function Cities(): seq<City>
  {
    [City("austin", "Austin", 30.2672, -97.7431, "America/Chicago", "\U{1F920}", "Live Music Capital")]
  }

  /** `cities.find(city => city.id === id)`: the first city with that id, or
    * `undefined` when there is none. */
  function FindById(cities: seq<City>, id: string): (r: Option<City>)
    ensures r.None? <==> forall i :: 0 <= i < |cities| ==> cities[i].id != id
    ensures r.Some? ==> r.value in cities && r.value.id == id
  {
    if cities == [] then None
    else if cities[0].id == id then Some(cities[0])
    else
      var r := FindById(cities[1..], id);
      assert forall i :: 1 <= i < |cities| ==> cities[i] == cities[1..][i - 1];
      r
  }

  /** The find returns the earliest match: the city at index `i` when no city
    * before it has the id. */
  lemma {:induction false} FindByIdFirst(cities: seq<City>, id: string, i: nat)
    requires i < |cities| && cities[i].id == id
    requires forall j :: 0 <= j < i ==> cities[j].id != id
    ensures FindById(cities, id) == Some(cities[i])
  {
    if i > 0 {
      assert cities[0].id != id;
      forall j | 0 <= j < i - 1
        ensures cities[1..][j].id != id
      {
        assert cities[1..][j] == cities[j + 1];
      }
      FindByIdFirst(cities[1..], id, i - 1);
    }
  }

  /** `getCityById` */
  function GetCityById(id: string): Option<City>
  {
    FindById(Cities(), id)
  }

  /** `getDefaultCity`: the first city of the table. */
  function GetDefaultCity(): City
  {
    Cities()[0]
  }

  /** `getCityById(cityId) || getDefaultCity()`: the city a request asks for,
    * or the default city when the id is unknown. */
  function CityForRequest(cityId: string): City
  {
    var found := GetCityById(cityId);
    if found.Some? then found.value else GetDefaultCity()
  }

  /** Only "austin" is a known id, and it names the default city. */
  lemma AustinIsTheDefault(id: string)
    ensures GetCityById(id).Some? <==> id == "austin"
    ensures GetCityById("austin") == Some(GetDefaultCity())
    ensures GetDefaultCity().name == "Austin" && GetDefaultCity().timezone == "America/Chicago"
  {
    FindByIdFirst(Cities(), "austin", 0);
  }

  /** Whatever id a request carries, the route serves the default city, since
    * the table holds that city alone. */
  lemma EveryRequestGetsTheDefault(cityId: string)
    ensures CityForRequest(cityId) == GetDefaultCity()
  {
    AustinIsTheDefault(cityId);
  }
}
